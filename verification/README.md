# trackteur-analyse in Dafny: framing, zone bookkeeping, updates and forms

This project models the integer- and string-level core of trackteur-analyse. That program
follows agricultural equipment through a Traccar server, turns its GPS positions into daily
work zones, and prepares GNSS assistance data for a receiver. Four parts are modelled:

- **CASIC framing and ephemeris messages** (`test_eph.py`, `casic.py`):
  - the `csip_pack` frame (`BA CE | len | class | id | payload | checksum32`);
  - the fixed little-endian layouts of MSG-GPSEPH (72 bytes), MSG-BDSEPH (92 bytes) and AID-INI
    (56 bytes), with their decoders;
  - saturating clamps, GPS/BDS week and time-of-week, the weekly wrap and the age text;
  - the ACK scan over a receive buffer, the sample-frame splitter and the RINEX file names;
  - `casic.py`'s checksum, frame builder, truncated GPS payload and CDDIS URL.

  Fields are raw integers. The float scaling layer sits above them and is not modelled.
- **Zone bookkeeping** (`zone.py`):
  - the period filter;
  - the aggregated-zone cache and its invalidation;
  - `aggregate_overlapping_zones`, over an abstract region type `set<P>`;
  - per-day grouping with its three-point gate;
  - position de-duplication and the monotone `last_position`;
  - track segmentation at gaps over 600 s;
  - per-date replacement of `DailyZone` rows;
  - how `fetch_positions` and `fetch_devices` turn an HTTP answer into a result.
- **Updates** (`update.py`): version parsing and the update test, the remote-URL to releases-API
  derivation, and release selection.
- **Forms** (`forms.py`): the decimal-comma rewriting of `LocalizedFloatField`, and the error
  lists produced by the declared `Optional`/`DataRequired`/`Length`/`NumberRange` checks.

Modules follow the program:
- `Csip`, `Saturation`, `Layout`, `FrameCodec`, `GpsEph`, `BdsEph`, `AidIni`, `GnssTime`, `Ack`,
  `SampleSplit`, `Rinex` and `AgeFormat` for `test_eph.py`, and `Casic` for `casic.py`;
- `ZonePeriod`, `ZoneCache`, `Regions`, `DayGroups`, `Ingest`, `Tracks`, `ZoneStore` and
  `Traccar` for `zone.py`;
- `Update` for `update.py` and `Forms` for `forms.py`.

`Bytes`, `Decimal`, `PyInt`, `Calendar`, `Text`, `Seqs` and `Wrappers` stand for the Python
facilities the code relies on: `struct`, `str`/`format`, `int()` on text, `datetime`, `str`/`bytes`
methods, list comprehensions, and the exception paths, modelled as `Result`/`Option`.

## Model

| member | source | states |
|---|---|---|
| `Bytes.UnsignedRoundTrip` | test_eph.py:289-300 | an unsigned little-endian field written by `struct.pack` reads back as the same value when it fits the width |
| `Bytes.SignedRoundTrip` | test_eph.py:292-303 | a signed (two's complement) field reads back as the same value when it fits the signed range |
| `Bytes.LeRoundTrip` | test_eph.py:244-255 | writing any integer into k bytes keeps it modulo 256^k, which is what the `& 0xFFFF` / `& 0xFF` masks do |
| `Bytes.SignedInverse` | test_eph.py:292-303 | re-encoding a signed read gives back the same bytes |
| `Csip.PadTo4` | test_eph.py:91-92 | the payload is zero-padded to the next multiple of 4 (fewer than 4 bytes added, payload kept as a prefix, unchanged when already aligned) |
| `Csip.CsipPack` | test_eph.py:86-97 | packing succeeds exactly when the padded length fits the U2 length field (`struct.pack("<H")` raises otherwise) |
| `Csip.CsipPackLayout` | test_eph.py:86-97 | the frame is `BA CE`, LE16 padded length, class, id, padded payload, LE32 checksum; its length is padded length + 10 |
| `Csip.AddWordsIsSum` | test_eph.py:94-96 | the running `& 0xFFFFFFFF` accumulation equals the seed plus the sum of all LE32 words, taken mod 2^32 once |
| `Csip.CsipChecksumInRange` | test_eph.py:93-96 | the checksum is `(id<<24) + (class<<16) + len` plus every LE32 payload word, mod 2^32 |
| `Csip.PackWellFormed` | test_eph.py:86-97 | every packed frame is well formed: aligned length, total length len + 10, checksum matching its contents |
| `Csip.RepackWellFormed` | test_eph.py:86-97 | every well-formed frame is exactly the packing of its own class, id and payload |
| `Csip.ReadHeader` | test_eph.py:281-283 | the header reads succeed exactly on frames of at least 6 bytes starting `BA CE` and return length, class and id |
| `Csip.PayloadSlice` | test_eph.py:286 | `frame[6:6+length]` yields the declared length when available and the rest of the frame otherwise |
| `Csip.ReadPacked` | test_eph.py:281-286 | reading a packed frame returns its class, id, padded length and padded payload |
| `Saturation.Clamp` | test_eph.py:104-108 | the clamp lands in range, is the identity on in-range input, and returns the closest in-range value |
| `Saturation.ClampI16` | test_eph.py:104-105 | `clamp_i16` returns a value in [-32768, 32767], equal to its input when that is in range |
| `Saturation.ClampI32` | test_eph.py:107-108 | `clamp_i32` returns a value in the signed 32-bit range, equal to its input when that is in range |
| `Saturation.ClampMonotone` | test_eph.py:104-108 | clamping preserves order |
| `Saturation.ClampIdempotent` | test_eph.py:104-108 | clamping twice is clamping once |
| `Saturation.PackSignedSaturated` | test_eph.py:122-132 | widths 1, 2 and 4 give that many bytes holding the input saturated to the signed range; any other width raises |
| `Saturation.PackUnsignedSaturated` | test_eph.py:134-146 | widths 1, 2 and 4 give that many bytes holding the input saturated to [0, 256^n - 1]; any other width raises |
| `Layout.Normalize` | test_eph.py:239-257 | what a field stores (masked or clamped) always fits the field, and in-range values are stored unchanged |
| `Layout.DecodeEncode` | test_eph.py:200-317 | decoding the serialised fields, in the decoder's read order, returns exactly the stored values |
| `Layout.EncodeDecode` | test_eph.py:200-317 | re-encoding decoded fields gives back the bytes that were read |
| `Layout.DecodeFits` | test_eph.py:289-306 | every decoded field lies in its width's signed or unsigned range |
| `Layout.NormalizeFitting` | test_eph.py:239-257 | a record whose fields all fit is stored unchanged |
| `FrameCodec.PackRecord` | test_eph.py:258-259 | a record frame is well formed, 10 bytes longer than its layout, and carries the encoded fields |
| `FrameCodec.DecodeRecord` | test_eph.py:280-317 | a decoder raises for a short or unsynchronised frame, for another class/id pair, and for a payload too short to unpack; otherwise it returns in-range fields read from `frame[6:6+len]` |
| `FrameCodec.DecodePacked` | test_eph.py:200-317 | decoding a packed record returns its stored fields |
| `FrameCodec.RepackDecoded` | test_eph.py:200-317 | a well-formed frame of the right class, id and length is rebuilt byte for byte from its decoded fields |
| `GpsEph.GpsLayoutSize` | test_eph.py:200-257 | the GPSEPH parts total 72 bytes, a multiple of 4 |
| `GpsEph.MakeMsgGpsEph` | test_eph.py:149-259 | a GPSEPH frame is 82 bytes, well formed, with length 72, class 0x08 and id 0x07 |
| `GpsEph.DecodeGpsEph` | test_eph.py:280-317 | `decode_gpseph` raises for a non-CSIP frame, for another class/id, and for a short payload; its fields are in range |
| `GpsEph.DecodeMake` | test_eph.py:149-317 | decoding a built frame returns the stored form of every raw field |
| `GpsEph.DecodeMakeInRange` | test_eph.py:149-317 | raw fields that fit their widths come back unchanged |
| `GpsEph.StoredMasksAndClamps` | test_eph.py:239-257 | week, iodc and reserved1 are masked to 16 bits; ura, health, svid and valid to 8 bits; the scaled fields are clamped |
| `GpsEph.MakeDecode` | test_eph.py:149-317 | any well-formed 82-byte GPSEPH frame is rebuilt byte for byte from its decoded fields |
| `BdsEph.BdsLayoutSize` | test_eph.py:498-589 | the BDSEPH parts total 92 bytes, a multiple of 4 |
| `BdsEph.MakeMsgBdsEph` | test_eph.py:498-589 | a BDSEPH frame is 102 bytes, well formed, with length 92, class 0x08 and id 0x02 |
| `BdsEph.DecodeBdsEph` | test_eph.py:592-658 | `decode_bdseph` raises for a non-CSIP frame, for another class/id, and for a short payload; its fields are in range |
| `BdsEph.DecodeMake` | test_eph.py:498-658 | decoding a built BDSEPH frame returns the stored form of every raw field |
| `BdsEph.DecodeMakeInRange` | test_eph.py:498-658 | raw BDS fields that fit their widths come back unchanged |
| `BdsEph.StoredMasksAndClamps` | test_eph.py:551-587 | week and the reserved halves are masked to 16 bits, the byte fields to 8 bits, the scaled fields are clamped |
| `BdsEph.MakeDecode` | test_eph.py:498-658 | any well-formed 102-byte BDSEPH frame is rebuilt byte for byte from its decoded fields |
| `AidIni.AidLayoutSize` | test_eph.py:794-803 | the AID-INI layout `<ddd d f f f f I H B B` is 56 bytes |
| `AidIni.MakeAidIni` | test_eph.py:772-804 | an AID-INI frame is 66 bytes, well formed, with length 56, class 0x0B and id 0x01 |
| `AidIni.DecodeAidIni` | test_eph.py:263-277 | `decode_aid_ini` raises for a non-CSIP frame, for another class/id, and for a payload that is not 56 bytes |
| `AidIni.DecodeMake` | test_eph.py:263-804 | decoding a built frame returns every field masked to its width, with timeSource 0 |
| `AidIni.DefaultFlagsSent` | test_eph.py:791-793 | without explicit flags the frame carries 0x23 (position valid, time valid, LLA) |
| `AidIni.MakeDecode` | test_eph.py:263-804 | a well-formed AID-INI frame with timeSource 0 is rebuilt from its decoded fields |
| `GnssTime.SplitWeek` | test_eph.py:762-769 | week and time of week satisfy elapsed = w·604800 + tow with 0 ≤ tow < 604800 |
| `GnssTime.SplitWeekUnique` | test_eph.py:762-769 | that decomposition is the only one |
| `GnssTime.SplitWeekMonotone` | test_eph.py:762-769 | later instants never have an earlier week |
| `GnssTime.GpsWeekTow` | test_eph.py:762-769 | `gps_week_tow` decomposes the seconds since 1980-01-06 |
| `GnssTime.BdtWeekTow` | test_eph.py:488-495 | `bdt_week_tow` decomposes the seconds since 2006-01-01 |
| `GnssTime.GpsBdtWeekOffset` | test_eph.py:488-495 | GPS and BDT weeks differ by exactly 1356 at any instant, with the same time of week |
| `GnssTime.Toc` | test_eph.py:440-446 | toc is max(0, s) mod 604800 |
| `GnssTime.FallbackRebuilds` | test_eph.py:440-473 | the fallback week and toc together rebuild the (clamped) elapsed seconds |
| `GnssTime.FallbackBeforeEpoch` | test_eph.py:745-747 | before the epoch the GPS fallback week is negative while the BDS one is 0 |
| `GnssTime.WrapWeekDelta` | test_eph.py:967-969 | `_wrap_week_delta` lands in [-302400, 302400) and stays congruent to its input modulo one week |
| `GnssTime.WrapUnique` | test_eph.py:967-969 | the wrapped value is the unique congruent value in that interval |
| `GnssTime.WrapSmall` | test_eph.py:967-969 | deltas already inside the interval are unchanged |
| `GnssTime.AgeIgnoresWeek` | test_eph.py:990-1003 | the displayed age of toe/toc does not depend on the decoded week |
| `AgeFormat.ParseFmt` | test_eph.py:954-964 | `_fmt_delta`'s text reads back as the delta it shows: exact below one hour, whole minutes from one hour up |
| `AgeFormat.FmtInjectiveBelowHour` | test_eph.py:954-962 | below one hour, different deltas give different texts |
| `Ack.Find` | test_eph.py:828 | `buf.find(b"\xBA\xCE", i)` returns the first sync at or after i, or none |
| `Ack.ScanAck` | test_eph.py:826-840 | the scan succeeds exactly when some `BA CE` with 12 bytes available has length 4, class 0x05, id 0x01 and the expected class/id in payload bytes 0..1 |
| `Ack.WaitAck` | test_eph.py:821-842 | polling chunk by chunk answers whether the accumulated buffer holds the expected ACK |
| `Ack.AckPersists` | test_eph.py:824-826 | bytes received later never hide an ACK already in the buffer |
| `Ack.AckWithoutChecksum` | test_eph.py:826-838 | an ACK is recognised whatever its checksum bytes |
| `Ack.PackedAckFound` | test_eph.py:826-840 | a `csip_pack`ed ACK is found wherever it sits in the buffer |
| `Ack.OtherAckIgnored` | test_eph.py:835-836 | an ACK for another class/id pair is not taken |
| `SampleSplit.SplitFirst` | test_eph.py:893-905 | the splitter takes a delimited frame off the front and continues after it |
| `SampleSplit.SplitFlatten` | test_eph.py:893-905 | on concatenated delimited frames it keeps exactly the class 0x08/id 0x07 frames, in order, with the svids that decode |
| `SampleSplit.SplitMade` | test_eph.py:893-905 | splitting built GPSEPH frames returns them all with their stored svids |
| `SampleSplit.ShortFrameKeptWithoutSvid` | test_eph.py:900-904 | a GPSEPH frame that fails to decode is kept but contributes no svid |
| `Rinex.YyDoy` | test_eph.py:38-42 | `yydoy` returns the year, its last two digits and the day of year that identifies the date |
| `Rinex.V3Candidates` | test_eph.py:45-62 | six candidate URLs, five v3 names and the v2 fallback last |
| `Rinex.CandidatesInDayDirectory` | test_eph.py:45-62 | every candidate lives in the BKG directory of its own date |
| `Rinex.CandidatesDistinctDays` | test_eph.py:45-62 | different dates never share a candidate URL |
| `Rinex.StampRoundTrip` | test_eph.py:51 | the `YYYYDDD0000` stamp reads back as year and day |
| `Rinex.V2NameRoundTrip` | test_eph.py:59 | `brdcDDD0.YYn.gz` reads back as day and two-digit year |
| `Rinex.LastCandidateIsV2` | test_eph.py:58-62 | the last candidate ends in the v2 file name of that date |
| `Casic.CasicSeed` | casic.py:62-63 | the seed holds class in its top byte, id below it and the length mod 2^16 in the low half |
| `Casic.CasicChecksum` | casic.py:60-69 | the checksum is the seed plus every LE32 word of the zero-padded payload, mod 2^32 |
| `Casic.CasicChecksum32` | casic.py:69 | it is returned as 4 little-endian bytes |
| `Casic.BuildCasicFrame` | casic.py:72-77 | building succeeds exactly when the payload length fits the U2 field |
| `Casic.BuildCasicFrameLayout` | casic.py:72-77 | the frame is `BA CE`, LE16 unpadded length, class, id, the payload as given and the checksum; its length is len + 10 |
| `Casic.ParseBuild` | casic.py:72-77 | reading a built frame and checking its checksum returns the class, id and payload |
| `Casic.BuildParse` | casic.py:72-77 | every frame that passes that check is rebuilt byte for byte |
| `Casic.ChecksumCoversPadding` | casic.py:64-65 | the checksum covers the zero-padded payload while the frame carries the unpadded one |
| `Casic.ChecksumDiffersFromCsip` | casic.py:63 | with class ≠ id the CASIC checksum differs from `csip_pack`'s, whose seed has class and id swapped |
| `Casic.SameFrameAsCsipButChecksum` | casic.py:72-77 | for an aligned payload the two frames agree everywhere but in the checksum |
| `Casic.FitTo` | casic.py:145-147 | the payload is padded with zeros or cut to exactly n bytes |
| `Casic.BuildPayloadGpsEph` | casic.py:122-147 | the payload is always 72 bytes |
| `Casic.PayloadContents` | casic.py:130-147 | bytes 0..3 are prn & 0xFF, svHealth & 0xFF and LE16 week & 0xFFFF, followed by the seven doubles and the three rate floats |
| `Casic.PayloadIgnoresTail` | casic.py:139-147 | the harmonics, af0..af2 and ura never reach the payload (113 bytes cut to 72) |
| `Casic.MakeCasicGpsEphFrames` | casic.py:150-154 | one 82-byte frame per ephemeris, in input order |
| `Casic.FramesReadBack` | casic.py:150-154 | each frame reads back as class 0x08, id 0x07 and the payload of that ephemeris |
| `Casic.DefaultUrlNamesDay` | casic.py:157-168 | the URL ends in `brdcDDD0.YYn.gz` with yy = year mod 100 |
| `Casic.DefaultUrlReadsBack` | casic.py:157-168 | that file name reads back as the requested day and year |
| `Casic.DefaultUrlMatchesBkgFallback` | casic.py:157-168 | for a real date it names the same file as the BKG v2 fallback |
| `Calendar.DayOfYearRoundTrip` | test_eph.py:41 | `%j` identifies the date within its year |
| `Calendar.PrevDay` | test_eph.py:917 | the previous day is valid, earlier, and no valid date lies between |
| `Calendar.IsoDateRoundTrip` | zone.py:575 | `str(date)` is 10 characters in the `YYYY-MM-DD` form and `fromisoformat` reads it back |
| `ZonePeriod.MakeDate` | zone.py:133 | `date(y, m, d)` succeeds exactly on a valid calendar date |
| `ZonePeriod.DeterminePeriod` | zone.py:118-143 | an explicit start or end wins over everything else; without a year there is no bound |
| `ZonePeriod.DayPeriod` | zone.py:130-134 | year+month+day gives the single day, and raises on an invalid date |
| `ZonePeriod.MonthPeriod` | zone.py:135-140 | year+month covers exactly that month, December ending on the 31st |
| `ZonePeriod.MonthEndIsLastDay` | zone.py:136-139 | the end date is the month's last day |
| `ZonePeriod.YearPeriod` | zone.py:141 | year alone covers exactly that year (a lone day is ignored) |
| `ZonePeriod.NoPeriod` | zone.py:143 | no arguments give `(None, None)`, which admits every date |
| `ZoneCache.GetAggregatedZones` | zone.py:146-187 | the cache gains only the period's key, keeps the other entries, and, when coherent, returns the aggregation of the stored rows and stays coherent |
| `ZoneCache.InvalidateCache` | zone.py:103-107 | exactly the keys of that equipment go; other keys and values are unchanged |
| `ZoneCache.InvalidateRestoresCoherence` | zone.py:103-107 | after rows of one equipment change, invalidating it makes the cache coherent again |
| `ZoneCache.FreshDatesInPeriod` | zone.py:170-184 | every date listed on an aggregated piece lies in the requested period |
| `Regions.Aggregate` | zone.py:329-331 | empty input gives empty output |
| `Regions.AggregatePartition` | zone.py:329-373 | pieces are pairwise disjoint, cover exactly the union of the inputs, are non-empty, and carry the dates of every input covering them in input order |
| `Regions.AggregateGood` | zone.py:338-373 | the loop invariant of the aggregation holds after every input zone |
| `Regions.AddZoneGood` | zone.py:339-372 | adding one zone keeps pieces disjoint, non-empty, covering, with their dates extended |
| `Regions.CutSpec` | zone.py:345-366 | the inner loop over existing pieces splits them and leaves what the new zone adds beyond them |
| `Regions.HeadSpec` | zone.py:346-366 | one existing piece becomes its difference and intersection, the latter with the new dates appended |
| `Regions.IdenticalZones` | zone.py:329-373 | two identical zones aggregate to one piece carrying both dates |
| `DayGroups.DayKey` | zone.py:284 | the day key is the first 10 characters of `deviceTime` |
| `DayGroups.ClusteredDays` | zone.py:299-301 | a day is clustered exactly when it has at least 3 positions, and only its own positions are clustered |
| `DayGroups.GroupsPartition` | zone.py:299 | each position is in exactly its own day's group |
| `DayGroups.GroupLocal` | zone.py:299 | positions of other days do not change a day's group |
| `Ingest.Ingest` | zone.py:530-548 | stored rows are kept, every fetched position ends up stored, and only fetched positions are added |
| `Ingest.IngestNoDuplicates` | zone.py:533-548 | the store never gains a duplicate (equipment, latitude, longitude, timestamp) |
| `Ingest.IngestStored` | zone.py:541 | a batch already stored adds nothing |
| `Ingest.IngestIdempotent` | zone.py:530-548 | re-ingesting the same batch adds nothing |
| `Ingest.Latest` | zone.py:524-528 | the latest fetched position has the greatest `deviceTime` string |
| `Ingest.StrLessTotal` | zone.py:525 | string order sorts every pair of times one way only |
| `Ingest.NewestStored` | zone.py:555-562 | the fallback is the greatest stored timestamp of that equipment, if any |
| `Ingest.UpdateLastPosition` | zone.py:550-562 | `last_position` never decreases, reaches the batch's latest time, changes only to it, and falls back to the newest stored row |
| `Ingest.LastPositionMonotone` | zone.py:550-553 | over successive runs `last_position` only moves forward |
| `Tracks.SplitTracks` | zone.py:599-615 | segments are non-empty, gaps inside them are at most 600 s, consecutive segments are more than 600 s apart, and together they give back the points |
| `Tracks.SegmentsConcat` | zone.py:604-615 | the segments concatenate back to the input |
| `Tracks.SegmentsShape` | zone.py:604-615 | every segment is non-empty with internal gaps of at most 600 s |
| `ZoneStore.StoreDay` | zone.py:574-596 | on `YYYY-MM-DD` strings, storing a day fails exactly when the text names no calendar date; new rows get fresh ids |
| `ZoneStore.StoreIsoDay` | zone.py:574-577 | the text of any calendar date is stored without error |
| `ZoneStore.StoreSameDay` | zone.py:576-596 | that equipment's rows for that date become one row per aggregated piece, with pass_count = number of dates |
| `ZoneStore.StoreOtherDays` | zone.py:576-577 | rows of other (equipment, date) pairs are untouched |
| `ZoneStore.StoreOtherEquipment` | zone.py:576-577 | rows of other equipment are untouched |
| `ZoneStore.DayPieces` | zone.py:580-596 | the pieces of a day are disjoint, cover exactly the day's zones, and count the zones covering each point |
| `ZoneStore.StoreDays` | zone.py:574-596 | on `YYYY-MM-DD` strings, the run fails exactly when some date text names no calendar date |
| `ZoneStore.StoreDaysOtherEquipment` | zone.py:574-596 | a whole run leaves other equipment's rows untouched |
| `ZoneStore.StoreDaysOtherDates` | zone.py:574-596 | a whole run leaves dates without new zones untouched |
| `ZoneStore.RunKeepsCacheCoherent` | zone.py:574-596 | after the run, invalidating that equipment's cache keeps the cache coherent |
| `Traccar.Endpoint` | zone.py:245 | the URL is the base without trailing slashes followed by the path |
| `Traccar.EndpointSlash` | zone.py:221 | a trailing slash on the base makes no difference |
| `Traccar.FetchPositions` | zone.py:253-267 | 404 gives no positions, other error statuses raise; 204, a blank body or a body that is not JSON give none; a decoded body without a length raises |
| `Traccar.PositionsDelivered` | zone.py:261-264 | a successful non-blank answer yields exactly the decoded list |
| `Traccar.BlankBodyNoPositions` | zone.py:259-260 | a whitespace-only body yields no positions |
| `Traccar.FetchDevices` | zone.py:218-232 | error statuses, undecodable and unsized bodies raise; the result is never longer than the list |
| `Traccar.DevicesSelected` | zone.py:227-230 | with `TRACCAR_DEVICE_NAME` set, a device is returned exactly when listed under that name; otherwise all are |
| `Text.Partition` | update.py:61 | `partition` splits at the first separator, or returns the whole text when there is none |
| `Text.SplitJoin` | update.py:62 | `split` pieces joined with the separator give back the text |
| `Text.FindAfter` | update.py:43-45 | `split(sep, 1)[1]` is the text after the first separator |
| `Text.StripBlank` | zone.py:259 | `strip()` is empty exactly when every element is whitespace |
| `Seqs.FilterMember` | update.py:154 | a comprehension with a condition keeps exactly the elements satisfying it |
| `PyInt.ReadIntText` | update.py:64-65 | `int(str(n))` gives back n for every integer, negative ones included |
| `PyInt.ReadIntSpaced` | update.py:64-65 | whitespace around a number does not change what `int()` reads |
| `PyInt.ForeignRejected` | update.py:64-67 | one ASCII character that is not whitespace, a sign, a digit or `_` makes `int()` raise ValueError |
| `PyInt.DigitsRead` | forms.py:54 | a digit string reads through `int()` as its number |
| `PyInt.ReadIntNat` | forms.py:54 | the decimal text of a whole number reads back as that number |
| `Update.ParseVersion` | update.py:52-67 | the stable flag is 0 or 1, and a stable version has beta 0 |
| `Update.ParseStable` | update.py:65 | `x.y.z` parses to (x, y, z, 1, 0) |
| `Update.ParseStableInts` | update.py:61-65 | any three integers written as `x.y.z`, negative ones included, parse to (x, y, z, 1, 0) |
| `Update.NegativeYearExample` | update.py:61-65 | `"-1.2.3"` parses to (-1, 2, 3, 1, 0): the fields are read by `int()` |
| `Update.ParseTagged` | update.py:61-65 | `x.y.zbN` parses to (x, y, z, 0, N), and a bare trailing `b` to a stable release |
| `Update.ForeignCharUnknown` | update.py:60-67 | a string holding a character other than `.` and `b` that `int()` also rejects (ASCII, not whitespace, a sign, a digit or `_`) parses to (0, 0, 0, 0, 0) |
| `Update.FieldCountUnknown` | update.py:61-67 | a tag whose part before the first `b` does not split into exactly three fields parses to (0, 0, 0, 0, 0) |
| `Update.EmptyUnknown` | update.py:60-67 | the empty tag parses to (0, 0, 0, 0, 0) |
| `Update.ZeroBetaIsUnknown` | update.py:57-64 | the readable beta tag `0.0.0b0` parses to the same zeros as an unknown format |
| `Update.KeyOrder` | update.py:130 | tuple comparison is field by field: year, month, patch, stable flag, beta |
| `Update.UpdateStrictOrder` | update.py:128-130 | `is_update_available` is false for equal versions, never true both ways, and transitive |
| `Update.UnknownBelow` | update.py:57-58 | from an unknown tag, a tag with non-negative fields is an update exactly when it does not parse to zeros, and it never sees the unknown tag as an update |
| `Update.UnknownBelowStable` | update.py:57-58 | every stable `x.y.z` tag of digit fields is an update over an unknown tag |
| `Update.FailedFetchNoUpdate` | update.py:123-130 | the "" returned by a failed lookup never makes a stable digit tag see an update |
| `Update.BetaBelowStable` | update.py:61-65 | a beta ranks below the stable release of the same year.month.patch |
| `Update.HigherBeta` | update.py:63-64 | a higher beta number ranks higher |
| `Update.BetaExamples` | tests/test_update_utils.py:35-40 | the three comparisons of the update tests |
| `Update.DropGit` | update.py:35-36 | a trailing `.git` is removed and nothing else changes |
| `Update.ReleasesApiUrl` | update.py:32-33 | when the remote cannot be read, the default URL is returned |
| `Update.FromRemote` | update.py:41-49 | a GitHub remote with a path gives `https://api.github.com/repos/<path>/releases` |
| `Update.NotGithubFallback` | update.py:38-39 | a remote not mentioning github.com falls back to the default URL |
| `Update.NoPathFallback` | update.py:41-47 | a GitHub remote with no `:` after `git@`, or no `github.com/` otherwise, falls back to the default URL |
| `Update.TrimmedPiece` | update.py:31-36 | the cleaned remote is a contiguous piece of the raw one |
| `Update.HttpsRemote` | update.py:35-49 | `https://github.com/<path>.git` maps to the API URL of `<path>` |
| `Update.SshRemote` | update.py:42-43 | `git@github.com:<path>.git` maps to the API URL of `<path>` |
| `Update.FirstTag` | update.py:119-122 | a tag returned comes from an eligible release |
| `Update.LatestVersion` | update.py:107-125 | a failed request gives ""; without prereleases, any tag returned belongs to a non-prerelease |
| `Update.LatestIsFirstEligible` | update.py:119-123 | the result is the tag of the first eligible release, or "" |
| `Update.AvailableVersions` | update.py:147-156 | a failed request gives []; otherwise the tags of the releases with a non-empty tag, in order |
| `Update.AvailableTags` | update.py:154 | a tag is listed exactly when it is non-empty and some release carries it |
| `Forms.CommaToDot` | forms.py:27-29 | every `,` becomes `.`; other characters and the length are unchanged |
| `Forms.Localize` | forms.py:26-30 | each submitted value is rewritten in place; the list keeps its length |
| `Forms.LocalizeKeeps` | forms.py:25-31 | numbers pass through, texts keep their length, and the rewriting is idempotent |
| `Forms.IntAsFloat` | forms.py:54 | every stripped text `int()` accepts reads as the same number through `float()` |
| `Forms.IntReadsAsFloat` | forms.py:54 | wherever `int(s)` succeeds on form text, `float(s)` gives the same number |
| `Forms.UnsignedDigits` | forms.py:58 | digits without a point read as their whole number |
| `Forms.FloatFieldErrors` | forms.py:58-69 | an optional float field has no error exactly when it is absent or blank, or converts to a value inside the inclusive range; a failed conversion reports both the conversion and the range message |
| `Forms.CommaOrPoint` | forms.py:25-31 | a decimal comma and a decimal point give the same value and the same errors |
| `Forms.CommaWhole` | tests/test_admin_config.py:154-168 | "N,0" reads as N, so "40,0" is 40.0, and eps accepts it exactly when 1 ≤ N ≤ 10000 |
| `Forms.AnalysisRanges` | forms.py:58-69 | eps_meters ∈ [1, 10000], min_surface ∈ [0, 100000], alpha_shape ∈ [0, 10], each optional |
| `Forms.AnalysisHourErrors` | forms.py:54-57 | analysis_hour has no error exactly when it is absent or blank, or an integer with 0 ≤ h ≤ 23 |
| `Forms.HoursAccepted` | forms.py:54-57 | the decimal text of h is accepted exactly when h ≤ 23 |
| `Forms.RequiredTextErrors` | forms.py:34-42 | a missing or blank value gets the required message alone; otherwise the raw length decides between no error and the length message |
| `Forms.TokenErrors` | forms.py:50-53 | the token is optional; when given, it must have 3 to 256 characters |
| `Forms.LoginChecks` | forms.py:35-42 | a name of spaces only is reported as missing whatever its length, and a two-character name as too short |

## Left out

- Floating point: the radian/semicircle conversions, `wrap_pm_pi`, the `round(x·2^k)` scaling,
  and IEEE packing. Ephemeris and AID-INI fields are the raw integers after scaling. Float
  fields of `casic.py` and of AID-INI are opaque fixed-width byte blocks.
- Times are whole seconds. The source uses float seconds for `gps_week_tow`, `bdt_week_tow`,
  toc and the ages.
- `AidIni.MakeDecode`: requires the decoded timeSource to be 0, because `make_aid_ini` always
  writes 0. It is therefore weaker than a full decode/re-encode identity.
- Geometry and numerics: DBSCAN, alpha shapes, joggle noise, shapely, pyproj, hectare sums and
  the minimum-surface filter. Regions are finite sets of an abstract point type, and the
  clustering step is a parameter.
- Network, file and device I/O:
  - the `requests` calls, where the status, body and decoded JSON are parameters;
  - gzip and file writes;
  - the georinex/xarray loaders;
  - the serial port, where the received chunks are parameters.
- `eph_from_nav`/`eph_from_nav_bds` return sorted svids next to unsorted frames
  (test_eph.py:484), and tests/test_nav_decode_integration.py:39-40 zips them together. The
  loaders are not modelled, so this mismatch is only noted.
- Both `casic.py`'s GPS payload and MSG-GPSEPH use class 0x08/id 0x07 with different layouts.
  This clash is noted but not modelled.
- Subprocess and git in `update.py`. The remote URL is a parameter, and `None` stands for a
  failed `git config`.
- `PyInt.ReadInt`: `int()` reads an optional sign and ASCII digits, with whitespace around them.
  Underscores between digits and non-ASCII digits, which Python also accepts, are not read.
  `Update` and `Forms` both use this reading.
- JSON types beyond lists:
  - a release that is not a dict, or a `tag_name` that is not a string (a missing one is "");
  - a device that is not a dict.
- `Forms.ReadFloat`: `float()` is restricted to an optional sign, digits and one optional point.
  Exponents, `inf`/`nan`, underscores and non-ASCII digits are not read, and values are exact
  rationals without binary rounding.
- `Forms.IntData`: numbers handed to an `IntegerField` directly are truncated toward zero; the
  text path uses `PyInt.ReadInt`.
- The WTForms behaviour of `Optional`, `DataRequired`, `Length` and `NumberRange` is written out
  in `Forms`. CSRF and the URL validator of `base_url` are not modelled.
- `tests/test_form_validation.py:48` expects "entre 3 et 80". forms.py:37 produces "entre 3 et
  64", and the model follows forms.py.
- `ZoneStore.StoreDay`, `ZoneStore.StoreDays` and `Calendar.ParseIsoDate` read only the
  `YYYY-MM-DD` form. `datetime.fromisoformat(...).date()` also accepts a date with a time part,
  and from Python 3.11 the basic form `20240101` and ISO week dates such as `2024-W01-1`. Those
  texts are reported as errors here. The date text is always `deviceTime[:10]` (zone.py:284),
  which for Traccar's ISO timestamps is in the `YYYY-MM-DD` form.
- tests/test_zone.py:132-137 and 241-247 expect a list from `cluster_positions`, which returns a
  tuple (zone.py:326). The model follows the source.
- pandas `groupby` order in `cluster_positions` is not modelled, because consumers key by date.
  The result is a map from day to clusters.
- SQLAlchemy sessions are modelled as in-memory row sequences; transactions and commits are not.
- The `strftime` formatting of the `from`/`to` query parameters of `fetch_positions` is not
  modelled.
- `Update.HttpsRemote` states the test remote `https://github.com/foo/bar.git` for any path
  rather than for that literal string.
- Flask routes, map and HTML generation, the scheduler and the argparse CLI are not modelled.
  Push ingestion, battery normalisation and device-token auth are exercised by tests but not
  implemented in the modelled files.
