# Upstream binary protocol layer — a Dafny model

This project models the byte-level core of a market-data gateway. The gateway
logs in to an MQTT-over-WebSocket broker with a captured CONNECT packet that
carries a JWT, subscribes to trade, depth and quote topics, and unpacks the
PUBLISH packets it receives. The model covers:

- the MQTT remaining-length codec (section 2.2.3 of MQTT 3.1.1) and its four
  Python copies;
- the three frame walkers that split one WebSocket frame into packets and keep
  the PUBLISH payloads (sections 3.3 and 3.3.2). It also covers the CONNACK and
  SUBACK sniffers;
- the CONNECT splicer that swaps the JWT inside a captured CONNECT body
  (`replace_jwt_in_connect`);
- the SUBSCRIBE builders (section 3.8): the market and trade single-packet
  bodies, the provider's chunked variant, the unused "gole" variant and the trade
  proxy's topic-candidate list;
- the Protocol Buffers scanners: the Python trade decoder, and the browser's
  trade and raw-snapshot scanners with the quote-panel priority merge. It also
  covers the ten-row depth alignment;
- the token holder with its renewal margin, the three in-memory hubs, and the
  `.env` rewriter;
- the handshake windows of the trade and depth proxies and the heatmap backoff.
  Each is a pure function over a finite list of received events.

Every operation is a pure function over immutable values. Bytes are
`seq<Byte>` with `Byte = 0..255`. Each error exit of the program is a `Result`
error or an `Option` `None`.

One definition stands for each family of duplicated helpers:

- `Varint.Encode` models every `_enc_vlq` copy, and gole's `_varint`
  (`Gole.VarintIsEncode` proves the loop equal to it).
- `Varint.Read` with a cap models every remaining-length reader:
  - `_read_vlq` in app/connect_builder.py and app/trade_proxy.py (cap 4);
  - the market walker's inline loop (cap 4);
  - the depth walker's inline loop (no cap);
  - `_get_varint` in app/trade_parser.py (cap 10).

  `Frames.InlineLoopsAgree` proves that the inline loops, as written, compute it.

Lemmas in the model also show where the copies disagree:

- `Frames.PaddedLengthDiffers` gives a frame that the capped walkers drop and
  the depth walker reads.
- `JsTrade.FieldNumbersDiffer` shows that field 1 is the symbol for the browser
  and the topic for the Python decoder.

The heatmap backoff (app/market_proxy.py:257-268) is reset only when
`_connect_once` returns without an exception. Payloads received before an error
do not reset it. `Sessions.NextBackoff` and `Sessions.CleanEndResets` state this.

The docstring of `_find_jwt_span` (app/connect_builder.py:47) speaks of the
longest segment, but lines 69-72 return the first qualifying span.
`Connect.FindLeftmost` and `Connect.LeftmostWins` state this leftmost rule. After
a candidate that is too short, the loop resumes where that candidate's scan
stopped (line 75), so a token that starts inside the candidate is never
examined. This is recorded under "## Findings". `Connect.FindFrom` models the
loop as written, and the rewrite `Connect.ReplaceJwtInConnect` uses it, as
`replace_jwt_in_connect` does (line 94). The corrected search `Connect.SearchFrom`
moves on by one byte instead. `Connect.ReplaceJwtInConnectCorrected` is the
rewrite that uses it.

The trade proxy has two windows:

- The CONNACK window forwards nothing.
- The SUBACK window forwards PUBLISH payloads until a frame looks like a SUBACK.

A frame that carries a SUBACK and a PUBLISH together therefore ends the SUBACK
window with its PUBLISH unforwarded, while the same frame in the streaming loop
would yield the payload. `Sessions.CoalescedSubackDropsPublish` states this. The
source may intend it, so it is recorded here rather than as a finding.

## Model

| member | source | states |
|---|---|---|
| Bytes.EncU16 | app/mqtt_subscribe_chunked.py:19-20 | `n.to_bytes(2, "big")` for n < 65536 is two bytes from which big-endian decoding gives back n |
| Bytes.EncU16Injective | app/connect_builder.py:108-110 | two different lengths never get the same two length bytes |
| Bytes.Utf8Append | app/mqtt_subscribe_chunked.py:23-25 | UTF-8 encoding of joined text is the joined encodings, so topics can be encoded piecewise |
| Bytes.AsciiEncode | app/market_proxy.py:121 | `encode("ascii")` succeeds exactly when every character is below 128, and then agrees with UTF-8 |
| Varint.EncodeSpec | app/connect_builder.py:24-34 | the encoder emits base-128 groups, low group first, with the 0x80 bit on every byte but the last, worth exactly n and with no redundant zero group |
| Varint.EncodeExamples | app/connect_builder.py:24-34 | 0 → 00, 127 → 7F, 128 → 80 01, 16384 → 80 80 01 |
| Varint.EncodeLength | app/mqtt_subscribe_chunked.py:5-16 | the encoding of n takes at most k bytes exactly when n < 128^k |
| Varint.ReadSpec | app/connect_builder.py:7-22 | the reader succeeds exactly when a byte with the top bit clear comes within the cap and before the end; it then consumes that run and returns its value; "too large" exactly when the cap's bytes all carry the continuation bit |
| Varint.ReadEncoded | app/trade_proxy.py:37-67 | reading an encoded length back, whatever follows, gives the length and the encoding's size |
| Varint.CappedAgreesWithUncapped | app/depth_proxy.py:55-65 | wherever a capped reader succeeds the uncapped depth loop reads the same value and length |
| Varint.ReadVlq | app/trade_proxy.py:37-54 | `_read_vlq` consumes between one and four bytes and returns a value below 128^4 |
| Varint.VlqRoundTrip | app/connect_builder.py:7-34 | for n < 128^4, `_read_vlq(_enc_vlq(n) + rest, 0)` is (n, length of the encoding) |
| Varint.VlqErrors | app/connect_builder.py:12-21 | "too large" exactly when four bytes from i all carry the continuation bit; "out of range" exactly when the buffer ends first with every byte continuing |
| Varint.ValueOfWellFormedIsShortest | app/connect_builder.py:7-22 | a run of k groups is worth less than 128^k, so the four-byte cap bounds the length |
| Frames.InlineLoopsAgree | app/market_proxy.py:59-74 | the market walker's inline loop, `_read_vlq` and the depth walker's inline loop each compute the remaining length as the shared reader does under their own cap |
| Frames.LoopsAgree | app/depth_proxy.py:54-65 | the market loop is the reader with a four-group cap; the depth loop is the reader with no cap, returning the index after the field |
| Frames.MarketLengthAgrees | app/market_proxy.py:63-73 | from any group, the market loop's partial value and multiplier carry on exactly as the capped reader's |
| Frames.MarketCap | app/market_proxy.py:71-73 | the `m > 128**3` test fires after the fourth continuing group and no earlier |
| Frames.DepthLengthAgrees | app/depth_proxy.py:57-65 | from any group, the depth loop computes what the uncapped reader computes |
| Frames.ExtractPublish | app/market_proxy.py:80-109 | only a packet whose type nibble is 3 yields a topic and payload |
| Frames.ExtractPublishPacket | app/market_proxy.py:85-108 | a PUBLISH built with any flags, topic and payload, carrying a packet id exactly when its QoS bits are non-zero, yields that topic and payload with the packet id removed |
| Frames.NonPublishYieldsNothing | app/market_proxy.py:82-83 | packets of other types contribute nothing |
| Frames.PublishesOfAppend | app/market_proxy.py:54-109 | publishes keep frame order: the publishes of two packet runs are those of the first followed by those of the second |
| Frames.PacketsStop | app/market_proxy.py:55-76 | the walk ends, keeping what it has, when fewer than two bytes remain, the length field cannot be read, or the packet overruns the frame |
| Frames.PacketFirst | app/trade_proxy.py:79-138 | an encoded packet at the front of a frame is read back whole and the walk resumes right after it |
| Frames.PacketsAppend | app/market_proxy.py:49-109 | packets encoded back to back at the front of a frame are the first packets found, whatever follows |
| Frames.PacketsRoundTrip | app/depth_proxy.py:38-108 | every walker recovers every packet of a frame of well-formed packets, and their publishes |
| Frames.TrailingJunkIgnored | app/market_proxy.py:55-76 | a tail that cannot start a packet ends the walk without losing the packets before it |
| Frames.MalformedPublishSkipped | app/market_proxy.py:86-91 | a PUBLISH whose topic length overruns its packet is skipped and the later packets still yield |
| Frames.SkipNonPublish | app/depth_proxy.py:76-97 | any packet that yields no publish is walked over without affecting the rest |
| Frames.SubackThenPublish | app/market_proxy.py:49-109 | a frame holding a SUBACK then a PUBLISH looks like a SUBACK and yields exactly that one PUBLISH |
| Frames.CappedIsPrefix | app/trade_proxy.py:96-99 | the capped walkers find a prefix of the packets the uncapped depth walker finds |
| Frames.PaddedLengthDiffers | app/depth_proxy.py:55-65 | a PUBLISH whose length is written in five zero-padded groups is dropped by the market and trade walkers and read by the depth walker |
| Frames.DepthPayloads | app/depth_proxy.py:101-108 | the depth walker yields no more payloads than the frame has publishes |
| Frames.FilterDepthAppend | app/depth_proxy.py:103-108 | the topic filter keeps a payload exactly when its decoded topic passes, in frame order |
| Frames.DepthTopicExamples | app/depth_proxy.py:107 | `mx/depth/…` and `mx/depthstats/…` pass, `mx/depth` and trade topics do not |
| Frames.ConnackExamples | app/market_proxy.py:19-20 | the broker's accepting CONNACK looks like one; a refusal with return code 5 does not and is not a SUBACK |
| Frames.SubackRecognised | app/depth_proxy.py:117-123 | any frame beginning with an encoded SUBACK of at least two body bytes looks like a SUBACK and not like a CONNACK |
| Connect.SigEnd | app/connect_builder.py:66-67 | the signature scan stops at the first byte that is not base64url or is a dot, taking every byte before it |
| Connect.ScanSound | app/connect_builder.py:58-74 | a scan that accepts a candidate has found a span starting `eyJ`, all base64url, with exactly two dots, 16 to 4096 bytes long; one it rejects as too long is such a span over 4096 bytes |
| Connect.ScanComplete | app/connect_builder.py:58-75 | for a genuine JWT span the scan classifies it by its length and nothing else |
| Connect.FindSound | app/connect_builder.py:45-76 | in the search as written, a found span is a genuine JWT span of 16 to 4096 bytes at or after the start |
| Connect.FindLeftmost | app/connect_builder.py:53-75 | the search commits to the leftmost `eyJ` candidate: it returns it, raises for it, or resumes after it when it is short |
| Connect.FindNone | app/connect_builder.py:76 | with no `eyJ` anywhere the search returns (-1, -1) |
| Connect.LeftmostWins | app/connect_builder.py:69-72 | a body that starts with a qualifying token is found at offset 0, by the search as written and by the corrected one |
| Connect.AsWrittenSkipsToken | app/connect_builder.py:53-76 | in the body `00 17` + "eyJ.eyJ.c." + 17 'd' bytes the search as written finds nothing, though a whole 23-byte token starts at offset 6; the corrected search returns that token |
| Connect.ShortTokenHides | app/connect_builder.py:53-76 | in any 29-byte body with a short token from 2 to 11, an admissible token from 6 to the end, and no other `eyJ`, the search as written finds nothing and the corrected one finds the token at 6 |
| Connect.CorrectedFindsHidden | app/connect_builder.py:53-76 | in such a body the search resuming one byte later steps past the short candidate at 2 and returns the token from 6 to the end |
| Connect.HiddenTemplateBody | app/connect_builder.py:83-91 | the template `10 1D` + that body loses its header and one-byte remaining length, leaving the 29-byte body |
| Connect.AsWrittenRewriteFails | app/connect_builder.py:93-96 | on that template `replace_jwt_in_connect` raises "JWT not found" for every new token; the corrected rewrite succeeds for every token of at most 0xFFFF bytes and puts it at offset 6 |
| Connect.RewritesDiverge | app/connect_builder.py:93-96 | for any template whose body the search as written finds empty while the corrected search finds a span at offset 2 or more, the rewrite as written fails with "JWT not found" and the corrected rewrite yields the body spliced at that span |
| Connect.SearchFindsToken | app/connect_builder.py:53-76 | with the resumption corrected, a body holding a whole token of at least 16 bytes never gives "not found"; a span returned is an admissible token starting no later than that one |
| Connect.SearchSound | app/connect_builder.py:58-76 | a span found by the corrected search is a whole token of 16 to 4096 bytes, at or after the start |
| Connect.AsWrittenFoundImpliesFound | app/connect_builder.py:45-76 | wherever the search as written finds a span, the corrected search does not report "not found", and a span it finds starts no later |
| Connect.StripHeader | app/connect_builder.py:84-87 | exactly one leading 0x10 is removed, and nothing else |
| Connect.Splice | app/connect_builder.py:108-119 | the new body keeps everything before the length field and after the span, writes the new length big-endian, and puts the new token in the span's place |
| Connect.ReplaceSpec | app/connect_builder.py:78-124 | on success the output is the new body behind its own remaining length; the body is the old one with the span found by the search as written swapped and its length field rewritten |
| Connect.ReplaceErrors | app/connect_builder.py:90-106 | the failure exits are a bad leading length, no span from the search as written, an over-long span, a span at offset below 2, or a token over 0xFFFF bytes, and each gives its own error; a span found at offset 2 or more with a token of at most 0xFFFF bytes succeeds |
| Connect.ConnectBodyErrors | app/connect_builder.py:90-91 | the template is rejected exactly when its leading remaining length cannot be read |
| Connect.ReplaceSameToken | app/connect_builder.py:113-123 | swapping in the token the search as written finds, with a matching length field already in front of it, gives back the body behind its remaining length |
| Connect.LongerToken | app/connect_builder.py:104-122 | replacing a 20-byte token with a 24-byte one grows the body by 4 and rewrites the length field `00 14` as `00 18` |
| Text.SplitJoin | scripts/refresh_jwt_env.py:58-60 | joining the pieces of a split with the separator gives back the text |
| Text.JoinSplit | app/trade_proxy.py:181-197 | splitting the join of separator-free pieces gives back the pieces |
| Text.SplitAt | scripts/refresh_jwt_env.py:61-63 | splitting at a separator splits the pieces on either side independently |
| Text.SplitCount | app/token_manager.py:11-13 | a split gives one more piece than the text has separators |
| Text.StripShape | app/trade_proxy.py:186-188 | `strip()` keeps a middle slice of the text and removes only whitespace around it |
| Text.StripEnds | app/trade_proxy.py:186-188 | a stripped item is empty exactly when it was all whitespace; otherwise it starts and ends with non-whitespace |
| Text.StripIdempotent | app/trade_proxy.py:186-188 | stripping twice is stripping once |
| Text.Upper | app/trade_proxy.py:155 | upper-casing keeps the length and maps each letter a–z to A–Z |
| Text.UpperIdempotent | app/depth_proxy.py:159 | upper-casing twice is upper-casing once and leaves no lower-case ASCII letter |
| Text.ReplaceAbsent | app/trade_proxy.py:189-191 | replacing a pattern the text does not contain changes nothing |
| Text.ReplaceSelf | app/trade_proxy.py:189-191 | replacing a pattern by itself changes nothing |
| Text.ReplaceOne | app/trade_proxy.py:189-191 | one occurrence between pattern-free parts is replaced and the rest kept |
| Subscribe.U16 | app/mqtt_subscribe_chunked.py:19-20 | the two-byte field is built exactly when the value is below 65536; otherwise it is an overflow error |
| Subscribe.EntriesSpec | app/trade_proxy.py:263-266 | the entries are built exactly when every topic fits its length field, and the server's reading gives back every filter, in order |
| Subscribe.BodySpec | app/trade_proxy.py:268 | a body is built exactly when the packet id and every topic length fit, and the server reads back that packet id and those filters |
| Subscribe.FramedIsPacket | app/trade_proxy.py:269-270 | a framed body behind a 0x82 is one whole SUBSCRIBE packet for the frame walker |
| Subscribe.MarketTopicShape | app/market_proxy.py:121 | the market topic adds 15 characters, is ASCII exactly when the symbol is, and upper-cases the symbol itself |
| Subscribe.MarketEntriesSpec | app/market_proxy.py:117-124 | market entries are built exactly when every topic is ASCII and fits, and equal the generic entries of `mx/symbol/SYM@lvl2` at QoS 0 |
| Subscribe.MarketSubBodySpec | app/market_proxy.py:112-125 | the market body is built exactly when the packet id and every topic fit; the server reads back the packet id and one filter per symbol, in order, with a plain string as one symbol |
| Subscribe.MarketSubscribeSpec | app/market_proxy.py:198-200 | for a packet id from 0x2000..0x7FFF and an ASCII symbol the market SUBSCRIBE is one packet with the single filter `mx/symbol/SYM@lvl2` |
| Subscribe.CandidatesOfPlain | app/trade_proxy.py:185-193 | formats without placeholders, commas or surrounding spaces are kept as they are |
| Subscribe.ConfiguredTopicsRoundTrip | app/trade_proxy.py:181-197 | listing plain topics comma-separated in the configuration subscribes to exactly those topics, in order |
| Subscribe.CandidateBlank | app/trade_proxy.py:187-188 | an item that is blank after stripping gives no topic |
| Subscribe.CandidatePadded | app/trade_proxy.py:186-192 | spaces around an item are dropped before it becomes a topic |
| Subscribe.PlaceholderFilled | app/trade_proxy.py:189-191 | a `{sym}` placeholder is filled with the symbol |
| Subscribe.TradeSubscribeSpec | app/trade_proxy.py:262-271 | the trade SUBSCRIBE is built exactly when its fields fit, and is one packet whose filters are the candidates at QoS 0, in order, behind the packet id |
| Subscribe.ChunksFitMeaning | app/mqtt_subscribe_chunked.py:43-50 | the later chunks fit exactly when the last packet id and every topic length fit two bytes |
| Subscribe.ChunkSpec | app/mqtt_subscribe_chunked.py:28-33 | one chunk is built exactly when its packet id and topic fit, and behind a 0x82 it is the SUBSCRIBE packet of that id and topic |
| Subscribe.ChunkPacketParses | app/mqtt_subscribe_chunked.py:28-33 | the server reads a chunk's packet as its packet id and one QoS 0 filter |
| Subscribe.ChunkedSpec | app/mqtt_subscribe_chunked.py:36-50 | the chunked SUBSCRIBE fails exactly for an empty list or a field that does not fit; behind a 0x82 it is the chunk packets back to back |
| Subscribe.ChunkedRoundTrip | app/mqtt_subscribe_chunked.py:43-50 | walking the chunked SUBSCRIBE gives one packet per topic, and packet k carries packet id base + k and topic k at QoS 0 |
| Subscribe.ChunkedSingle | app/mqtt_subscribe_chunked.py:45-50 | with one topic the output is `_build_sub_body(base, topic)` |
| Subscribe.ChunkedLength | app/mqtt_subscribe_chunked.py:43-50 | the output length is the sum of the chunk lengths plus one 0x82 per later chunk |
| Subscribe.DepthTopicsPassFilter | app/depth_proxy.py:176-181 | the depth topic subscribed to passes the depth proxy's own PUBLISH topic filter |
| Subscribe.DepthSubscribeSpec | app/depth_proxy.py:255-261 | with no custom body and a packet id from 0x2000..0x7FFF the depth SUBSCRIBE is one packet for `mx/depth/SYM@lvl2` with that id |
| Gole.VarintIsEncode | app/gole_subscribe.py:4-14 | `_varint` is byte for byte the shared base-128 encoder |
| Gole.Entry | app/gole_subscribe.py:29-32 | an entry is built exactly when the UTF-8 path is at most 0xFFFF bytes |
| Gole.EntriesSpec | app/gole_subscribe.py:21-36 | the build fails exactly when some path is too long; its length is the sum of the entry lengths plus one 0x82 per later entry |
| Gole.EmptyBuild | app/gole_subscribe.py:21-37 | no topics give no bytes |
| Gole.SeparatorPlacement | app/gole_subscribe.py:24-26 | the first entry has no 0x82 in front and every later one has |
| Gole.Routes | app/gole_subscribe.py:23-30 | routes keep the input order, each with its id and UTF-8 path |
| Gole.EntriesRoundTrip | app/gole_subscribe.py:23-36 | with a two-byte length field the entries parse back to the routes, in order |
| Gole.AsWrittenAgreesBelow256 | app/gole_subscribe.py:34 | for paths under 256 bytes the code as written and the corrected length field build the same bytes |
| Gole.AsWrittenLosesLength | app/gole_subscribe.py:34 | for a path of 256 to 0xFFFF bytes the two length bytes as written do not encode its length, and the entry does not parse back |
| Gole.AsWrittenExample | app/gole_subscribe.py:27-34 | a 256-byte path is announced with length bytes 00 00 |
| Gole.CorrectedRoundTrip | app/gole_subscribe.py:16-37 | the corrected builder succeeds for paths that fit and every entry parses back to its id and path |
| TradeDecoder.GetVarintSpec | app/trade_parser.py:21-36 | the reader consumes a well-formed run of at most ten bytes and returns its value; "too long" exactly when ten bytes continue; "out of range" exactly when the buffer ends first |
| TradeDecoder.GetLenDelimitedSpec | app/trade_parser.py:39-43 | it returns exactly the declared number of bytes after the length and the index after them, and fails exactly when the declared length passes the end |
| TradeDecoder.VarintLimitIsPow | app/trade_parser.py:31-35 | the ten-byte cap is the bound 128^10 the encodable values stay below |
| TradeDecoder.StepField | app/trade_parser.py:50-99 | one encoded field is read whole and applied by (field, wire type): 4/0 qty, 6/0 ts, 1, 2, 5, 7, 8 as strings, 3/5 price, anything else ignored |
| TradeDecoder.ScanFields | app/trade_parser.py:50-99 | a run of encoded fields is applied field by field in order |
| TradeDecoder.DecodeRoundTrip | app/trade_parser.py:46-110 | decoding any encodable field list gives the defaults with the fields applied in order |
| TradeDecoder.UnknownWireTypeStops | app/trade_parser.py:97-99 | wire types 6 and 7 stop the scan and keep what was decoded |
| TradeDecoder.TruncatedFixed32Ends | app/trade_parser.py:82-88 | a fixed32 with fewer than four bytes left ends the scan without error |
| TradeDecoder.TruncatedLenDelimitedFails | app/trade_parser.py:39-43 | a length-delimited field cut short is the "len-delimited out of range" error |
| TradeDecoder.TruncatedVarintFails | app/trade_parser.py:24-27 | a varint cut short is the "varint out of range" error |
| TradeDecoder.LaterOverwrites | app/trade_parser.py:55-80 | a later occurrence of the same field is applied last and so wins |
| JsVarint.RvAgreesWithRead | app/static/depth.js:199 | where the shared reader succeeds, `rv64` reads the same value and end |
| JsVarint.RvEncoded | app/static/depth.js:199 | the exact reader reads every encoded value back with the index after it |
| JsVarint.RvPastEnd | app/static/depth.js:199 | a run that reaches the end of the buffer is read as far as it goes and the index ends one past the end |
| JsVarint.RvIntExample | app/static/depth.js:133 | 2^31 encodes as 80 80 80 80 08, and `rvint` reads it as -2^31 |
| JsVarint.RvIntAgrees | app/static/depth.js:133 | `rvint` agrees with the exact reader on values below 2^31 |
| JsVarint.RvIntWraps | app/static/depth.js:133 | for values from 2^31 to 2^32 `rvint` returns the value less 2^32, a negative number |
| JsTrade.Step | app/static/depth.js:136-145 | a round of the loop with the exact reader that continues moves the index forward by at least one byte, so the corrected loop always ends |
| JsTrade.StepField | app/static/depth.js:136-145 | one encoded field is read whole and applied: 1/2 symbol, 2/2 trade id, 3/5 price, 4/0 qty, 5/2 side, 6/0 ts, 7/2 buyer, 8/2 seller, other fields skipped |
| JsTrade.ScanFields | app/static/depth.js:136-146 | a run of encoded fields is applied field by field in order |
| JsTrade.DecodeRoundTrip | app/static/depth.js:136-146 | decoding any encodable field list gives the empty trade with the fields applied in order |
| JsTrade.AsWrittenLengthLoops | app/static/depth.js:133-136 | with `rvint`, the bytes 0A FA FF FF FF 0F (field 1, a string of length 2^32 - 6) end the first round at index 0, where it began, so `decodeTrade` repeats that round for ever |
| JsTrade.NegativeLengthReturns | app/static/depth.js:134 | a string key read up to index 1 and a length that reads as -6 up to index 6 send the index back to 0 |
| JsTrade.CorrectedLengthEnds | app/static/depth.js:134-146 | with the exact reader the same bytes give a string running past the end: the symbol is the empty rest of the message and decoding ends |
| JsTrade.GroupOrUnknownStops | app/static/depth.js:145 | wire types 3, 4, 6 and 7 stop the scan and keep what was decoded |
| JsTrade.TruncatedPriceFails | app/static/depth.js:135 | a price with fewer than four bytes left makes the DataView read throw |
| JsTrade.TruncatedStringKept | app/static/depth.js:134 | a string cut short is kept as the bytes that remain and ends the scan |
| JsTrade.FieldNumbersDiffer | app/static/depth.js:137-138 | field 1 is the symbol and field 2 the trade id in the browser, but topic and symbol in the Python decoder |
| JsTrade.Positive32Examples | app/static/depth.js:152 | the price test accepts 1.0 and +∞ and rejects ±0, -1.0 and NaN |
| JsTrade.LastFromTrade | app/static/depth.js:150-153 | the headline price either stays as it was or becomes a positive price |
| JsTrade.LastFromTradeSpec | app/static/depth.js:151-152 | the price changes only for a positive price whose trade is not for another symbol, always does then, and applying the same trade twice changes nothing more |
| JsTrade.OtherSymbolIgnored | app/static/depth.js:151 | a trade naming another symbol, in any case, never moves the headline price |
| JsSnapshot.SnapStepField | app/static/depth.js:201-205 | one encoded field is read whole; varint and fixed64 values are stored under their field number, length-delimited and fixed32 fields skipped |
| JsSnapshot.SnapRoundTrip | app/static/depth.js:201-206 | decoding any encodable field list gives the map of its varint and fixed64 fields |
| JsSnapshot.LaterWins | app/static/depth.js:202-203 | the last occurrence of a field number is the value kept |
| JsSnapshot.TruncatedDoubleFails | app/static/depth.js:200 | a double with fewer than eight bytes left makes the DataView read throw |
| JsSnapshot.FieldOfWide | app/static/depth.js:201 | a tag of 2^31 or more gives a negative field number under `>>` |
| JsSnapshot.PickNumber | app/static/depth.js:207 | what `pickNumber` returns is always finite |
| JsSnapshot.PickSpec | app/static/depth.js:207 | it returns a value exactly when some candidate is present and finite, and then the first such candidate |
| JsSnapshot.PickLocal | app/static/depth.js:207 | only the listed fields matter |
| JsSnapshot.PickOrSpec | app/static/depth.js:252-261 | a panel field keeps its previous value when none of its fields is usable, else takes the first usable one |
| JsSnapshot.MergeIdempotent | app/static/depth.js:252-261 | merging the same snapshot twice is merging it once |
| JsSnapshot.MergeKeepsFinite | app/static/depth.js:252-261 | a panel of finite or absent values stays so after any merge |
| JsSnapshot.PrevOnlyFromItsKeys | app/static/depth.js:261 | the previous close is set only from fields 9, 62 and 47 |
| JsSnapshot.RenderHeadline | app/static/depth.js:210-214 | a change is shown only when both the headline price and the previous close are present |
| JsSnapshot.TradeOutranksSnapshot | app/static/depth.js:211 | a trade price, once set, is the headline whatever the snapshot says |
| JsSnapshot.SnapshotLastWithoutTrade | app/static/depth.js:211 | without a trade price the headline is the snapshot's last price from fields 5, then 25, else the earlier one |
| JsSnapshot.ChangeShown | app/static/depth.js:151-214 | after a valid trade the change is shown when the snapshot's previous close is non-zero, and never when it is zero |
| Depth.AlignDepth | app/depth_parser.py:14-27 | always ten rows, row i at level i + 1; a side's columns are empty exactly when its ladder has no entry i, else they carry entry i's orders and quantity unchanged and its formatted price |
| Depth.OnlyTopTenCount | app/depth_parser.py:15-16 | entries past the tenth of either ladder never reach the table |
| Depth.BidsRoundTrip | app/depth_parser.py:17-23 | reading the bid columns back gives the top ten bids, in order |
| Depth.DecodeDepthSnapshot | app/depth_parser.py:4-28 | a parse failure is the only error; a parsed snapshot always gives the full ten-row table |
| Hubs.AddTrade | app/trade_hub.py:12-15 | the trade is appended last, the buffer grows by one up to 400, the older trades kept are the tail of the old buffer, and other symbols are untouched |
| Hubs.AddTradesKeepsNewest | app/trade_hub.py:12-15 | after any run of adds the buffer is the newest 400 of everything added, in arrival order |
| Hubs.AddTradesOthersUnchanged | app/trade_hub.py:14 | adds for one symbol never change another symbol's buffer |
| Hubs.TailSlice | app/trade_hub.py:22 | Python's `s[-limit:]`: the last min(limit, n) items for a positive limit and all of them for 0 |
| Hubs.GetLastTrades | app/trade_hub.py:17-22 | nothing for an unknown symbol; for a positive limit the min(limit, n) newest trades, newest first; for limit 0 the whole buffer, newest first |
| Hubs.NewestFirst | app/trade_hub.py:12-22 | a trade just added is the first one returned for any positive limit |
| Hubs.NegativeLimitDropsOldest | app/trade_hub.py:22 | a negative limit drops that many of the oldest trades rather than keeping the newest |
| Hubs.SetDepth | app/depth_hub.py:10-23 | after `set`, `get_last` returns exactly the levels and `get_ts` the stamp for that symbol, and other symbols read as before |
| Hubs.DepthLatestWins | app/depth_hub.py:10-12 | only the latest set is visible |
| Hubs.MillisTruncates | app/depth_hub.py:12 | the stamp is the wall clock in milliseconds, truncated |
| Hubs.SetQuote | app/quote_hub.py:10-16 | after `set`, `get` returns the quote for that symbol and nothing else changes |
| Hubs.Snapshot | app/quote_hub.py:18-21 | the snapshot holds exactly the symbols `get` knows, each with its quote |
| Hubs.SnapshotAfterSets | app/quote_hub.py:10-21 | after two sets of one symbol the snapshot holds the second quote |
| Tokens.Padded | app/token_manager.py:6-7 | padding appends fewer than four `=` to make the length a multiple of four |
| Tokens.PaddedIdempotent | app/token_manager.py:6-7 | padded text gets no further padding |
| Tokens.JwtExp | app/token_manager.py:9-18 | no expiry unless the token splits into exactly three parts |
| Tokens.JwtExpNeedsTwoDots | app/token_manager.py:11-13 | a token with other than two dots never has an expiry |
| Tokens.JwtExpReadsPayload | app/token_manager.py:11-16 | for `header.payload.signature` the expiry is read from the padded middle part |
| Tokens.Init | app/token_manager.py:21-25 | the expiry is read only from a truthy initial token |
| Tokens.SetToken | app/token_manager.py:26-29 | `set` stores the token and reads the expiry from it alone |
| Tokens.GetToken | app/token_manager.py:30-40 | the token is handed out exactly when it is present, non-empty, and its expiry is unknown or more than the margin away |
| Tokens.GetInfo | app/token_manager.py:41-43 | `has_jwt` holds exactly when the stored token is truthy, which is exactly when `get` would hand it out at a time before its renewal margin starts, and `exp` is the stored expiry |
| Tokens.WithheldStaysWithheld | app/token_manager.py:36-39 | a token withheld for nearing expiry stays withheld at every later time |
| Tokens.MarginExamples | app/token_manager.py:21-40 | with the default margin of 120 s a token expiring in 100 s is withheld and one expiring in 500 s is handed out |
| Tokens.SetThenGet | app/token_manager.py:26-40 | after `set`, `get` depends only on the new token and its own expiry |
| EnvFile.ReplaceInitialJwt | scripts/refresh_jwt_env.py:61-63 | with no key line the text is kept as a prefix and the result ends with a newline |
| EnvFile.ResultHasOnlyNewLine | scripts/refresh_jwt_env.py:57-63 | the result has the line `INITIAL_JWT=<token>` and every key line in it is that line |
| EnvFile.ReplaceKeepsOtherLines | scripts/refresh_jwt_env.py:58-60 | with a key line present, the line count is kept, every key line becomes the new line and every other line is unchanged |
| EnvFile.ReplaceIdempotent | scripts/refresh_jwt_env.py:57-63 | rewriting twice with the same token is rewriting once |
| EnvFile.EmptyFile | scripts/refresh_jwt_env.py:61-63 | an empty file becomes a newline, the key line and a newline |
| Sessions.TradeConnackWindow | app/trade_proxy.py:238-253 | the CONNACK window forwards nothing and ends at the first CONNACK-looking frame, on a close, or after 20 polls; every frame before the end is neither |
| Sessions.TradeSubackWindow | app/trade_proxy.py:275-292 | the SUBACK window ends at the first SUBACK-looking frame, on a close, or after 20 polls, and forwards every PUBLISH payload of the frames before that |
| Sessions.TradeStreamSplit | app/trade_proxy.py:307-313 | streaming a run of events is streaming any unclosed prefix, then the rest |
| Sessions.TradeSessionAfterConnack | app/trade_proxy.py:275-313 | once the CONNACK is seen and a SUBACK-looking frame closes the second window, the session forwards exactly the payloads streaming would yield from the frames after the CONNACK, minus that SUBACK frame's own |
| Sessions.TradeSessionWithoutSuback | app/trade_proxy.py:275-313 | when no SUBACK comes the session forwards exactly what streaming would from after the CONNACK |
| Sessions.CoalescedSubackDropsPublish | app/trade_proxy.py:282-290 | a frame with a SUBACK and a PUBLISH ends the SUBACK window with nothing forwarded, though streaming it would forward the payload |
| Sessions.TablesAreParsed | app/depth_proxy.py:236-242 | a payload that fails to decode is skipped alone; every other gives its ten-row table, in order |
| Sessions.DepthConnackWindow | app/depth_proxy.py:220-246 | the depth CONNACK window ends at the first CONNACK-looking frame, on a close, or after 12 polls, and forwards exactly the tables streaming would yield from the frames before it (none from SUBACK-looking frames) |
| Sessions.DepthStreamSplit | app/depth_proxy.py:278-305 | streaming a run of events is streaming any unclosed prefix, then the rest |
| Sessions.DepthSessionLosesOnlyConnack | app/depth_proxy.py:220-305 | the depth session forwards what streaming the whole socket would, less the CONNACK frame that closed the window |
| Sessions.DepthStreamClosed | app/depth_proxy.py:303-305 | nothing is forwarded after the socket closes |
| Sessions.NextBackoff | app/market_proxy.py:257-268 | a clean end resets the delay to 1 s; an error multiplies it by 1.7, capped at 15 s |
| Sessions.SleepsBounded | app/market_proxy.py:257-268 | every delay slept stays between 1 s and 15 s |
| Sessions.BackoffSchedule | app/market_proxy.py:266-268 | seven errors in a row sleep 1, 1.7, 2.89, 4.913, 8.3521, 14.19857 and 15 s |
| Sessions.CleanEndResets | app/market_proxy.py:260-262 | after a clean end the next error sleeps 1 s |

## Left out

- Async I/O, locks and timers are not modelled. This covers WebSocket connect, send and receive; `asyncio.sleep` and `wait_for`; the heartbeat task; the stall watchdog; and logging. The hub and token-store locks only serialise operations, and each modelled operation runs whole. A handshake window is a function over a finite list of received events (`Sessions.Event`): a timeout, a text frame, a binary frame or a close.
- `random.randint` for packet ids is a parameter (`pid`, `base`). `time.time()` is the argument `now` / `nowMs`.
- Floating point is opaque. Prices stay as their raw IEEE bytes, and finiteness, zero and sign are predicates on those bytes. `f"{price:.2f}"` is the parameter `fmt`. JS `Number` conversion, `toLocaleString`, and `diff`/`diffPct` arithmetic are left out.
- Sessions.BackoffSchedule: the backoff uses exact decimal arithmetic, so the schedule shows 2.89 where Python's binary floats give 2.8899999999999997. The 15 s cap and the reset are exact either way.
- Hubs.MillisTruncates: `time()` is an exact real here, not a binary float.
- UTF-8 decoding is a parameter: `decode("utf-8", "ignore")`, `TextDecoder`, and the market walker's decode that falls back to "". UTF-8 encoding is modelled exactly.
- `base64.urlsafe_b64decode`, `json.loads` and `int(exp)` in `_jwt_exp` are the parameter `claim`; `Tokens.JwtExp` checks only the three-part split. `DepthSnapshot.ParseFromString` is the parameter `parse`; the generated protobuf module is not part of this model.
- Text.Upper: upper-cases ASCII letters only, whereas Python's `upper()` also maps non-ASCII letters (and can change the length). Symbols are ASCII tickers.
- EnvFile.ReplaceInitialJwt: models the token as inserted literally. `re.sub` would interpret backslash escapes in it. The lemmas also require a token without newlines.
- Gole.Entry: route ids are natural numbers. `_varint` never terminates for a negative id.
- JsSnapshot.SnapRoundTrip: `rv64` returns `Number(x)`, which rounds values above 2^53. The model keeps the exact integer, and `Finite` treats any integer below the float64 overflow bound as finite.
- JsTrade.DecodeRoundTrip, JsTrade.StepField, JsTrade.ScanFields: the browser trade decoder is modelled with the exact reader `JsVarint.Rv`, the corrected `rvint` of the two findings on app/static/depth.js. The as-written `rvint` is `JsVarint.RvInt`. With it, a string or skipped length of 2^31 or more reads as negative and moves the index backwards, and the loop can run for ever (`JsTrade.AsWrittenLengthLoops`). These lemmas do not describe the as-written decoder on such input.
- Subscribe.MarketSubscribeSpec, Subscribe.DepthSubscribeSpec: symbols are assumed shorter than 1000 characters, so the whole packet stays within a four-byte remaining length.
- Each walker's PUBLISH topic filter is modelled for the depth walker only. The market and trade walkers decode the topic but forward every payload, and their topic value plays no part.
- Heatmap topic demultiplexing (`_connect_once` of the heatmap client) is out. So are the market proxy's own handshake windows (app/market_proxy.py:180-225), which match the trade proxy's CONNACK window in shape.
- Network and browser code is out (FastAPI front door, Telegram bot, HTTP symbol proxy, PNG snapshot, browser automation, atomic writes), as are configuration and startup.

## Findings

| source | as written | input that shows it | evidently intended | confidence | as-written member | corrected member |
|---|---|---|---|---|---|---|
| app/gole_subscribe.py:34 | the path length is written as `[0x00, plen & 0xFF]`, so its high byte is always zero | a 256-byte path: its length bytes are `00 00` | the two-byte big-endian length `plen >> 8, plen & 0xFF` (the check above allows up to 0xFFFF) | not executed | Gole.AsWrittenLosesLength | Gole.CorrectedRoundTrip |
| app/static/depth.js:133 | `rvint` accumulates with the 32-bit shift and or-assignment, so values of 2^31 and above wrap (a millisecond timestamp in field 6 is such a value) | the varint 80 80 80 80 08 (2^31) reads as -2^31 | the exact value, as `rv64` reads it | not executed | JsVarint.RvIntWraps | JsVarint.RvEncoded |
| app/connect_builder.py:75 | after a candidate shorter than 16 bytes the search resumes at `i = j`, where that candidate's scan stopped, so a token starting inside the candidate is never examined | the template `10 1D 00 17` + "eyJ.eyJ.c." + 17 'd' bytes: nothing is found, and `replace_jwt_in_connect` raises "JWT not found", though a whole 23-byte token starts at body offset 6 | resume one byte later, so that every token is examined | not executed | Connect.AsWrittenRewriteFails | Connect.SearchFindsToken |
| app/static/depth.js:134 | `rstr` moves the index to `i + len` with `len` from `rvint`, so a length of 2^31 or more moves it backwards (the generic skip at line 145 does the same), and the `while(i<L)` loop at line 136 can repeat for ever | 0A FA FF FF FF 0F: field 1 as a string whose length reads as -6, sending the index from 6 back to 0 | the exact length, which runs past the end and ends the loop | not executed | JsTrade.AsWrittenLengthLoops | JsTrade.CorrectedLengthEnds |
