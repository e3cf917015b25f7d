# Verification of the TRANSAQ connector

A Dafny model of the native TRANSAQ protocol stack (frames, cipher, fields, records, sessions, recovery,
subscriptions) and of the small concurrent structures around it (response queue, broker, approvals, dialog store),
with proofs of what they promise. `dafny verify dfyconfig.toml` checks everything.

## What is modelled

| files | part |
|---|---|
| Bytes, Crc16, Gost, Frame | the frame layer: header with two CRC-16s, GOST 28147-89 in counter mode (section 6 of RFC 5830) and CFB (section 7), in place on byte arrays |
| Codec, Payload | field encodings as functions, and the Writer and Reader objects proved against them |
| Records, Splitting, Splitter, Nesting | the undelimited record splitter as a specification, its theorems, the loop itself, and wrappers within wrappers |
| Parsers, Composing, Quotation, History | the typed parsers, and records written field by field against them |
| Session, Recovery, Lifecycle | request/reply matching, short recovery and Run's statuses, and the connector's workers |
| Subscriptions, Events | the session catalog, subscription masks, message batches and waiting orders |
| ResponseQueue, Broker, Proposals, Conversation | the concurrent structures and the dialog store |
| Decimals, Money, Xml | printers and parsers |

Bytes are integers 0..255 and machine words are bounded integers with explicit wrap-around. Loops and objects of the
source are methods and classes, proved against functions; the properties are lemmas about those functions. Where
several threads interleave (Lifecycle, Recovery's Run loop, ResponseQueue, Proposals) the model is a state machine
with one step per mutex section or channel operation, and the theorems hold for every schedule. Time, dial outcomes,
handler results, cancellations and the server's answers are parameters.

Where the code and a plausible reading of its comments differ, the code is followed:

- The comment on `Records` says wrapper bodies are skipped; the code yields their nested records.
- A wrapper's salvage is meant to keep the records before an unknown one. It loses them when the unknown record is
  0x0f or 0x69, whose offset is reported one byte late, or when an R_FORTS_SESSION took its optional byte
  (`Splitting.SalvageExact`, `Splitting.SalvageLosesRecords`).
- The send counter also counts requests that could not be encoded and were never sent (`Session.SeqCountsAttempts`).
- A reply whose request ended by the plain request timeout is not remembered as abandoned. From then until the
  next successful recovery no exchange returns its own reply (`Session.RunExact`, `Session.TimeoutMismatch`).
- `Connector.Close` waits for the last worker only; exactly the live workers that no command under way waits for can
  be left behind (`Lifecycle.OutlivesExactly`, `Lifecycle.OverlapOutlivesClose`).
- An R_QUOTES record with a side other than B and S is split but refused by its parser
  (`Parsers.QuotesAcceptedExactly`, `Parsers.UnknownSideRefused`).
- A quotation mask equal to the least 32-bit integer is not kept by its packed form (`Quotation.QuotationComplete`).
- A transaction whose reply never came is filed under the number last issued on any connection
  (`Session.FiledUnderOwnNumber`).
- fixedMoney and specDecimalFixed divide by zero when 64 digits or more are to be dropped, and with a gap of 19
  digits or more they are right only under the condition of `Money.AtOnceExact`.
- A history over its byte budget is cut to the newest turn even if more would fit (`Conversation.TrimMinimal`).
- A result can be kept for a proposal that has left the ring (`Proposals.StaleResultReachable`).
- A default pit in the first position does not keep another default pit from moving in front of it (`Xml.OrderPits`).

## Model

| member | source | states |
|---|---|---|
| `Gost.NewCipher` | native/cryptoprofile/gost.go:35-44 | a key of 32 bytes gives the eight little-endian key words, any other length is refused |
| `Gost.EncryptHalves` | native/cryptoprofile/gost.go:46-60 | the loop of 32 rounds computes the specified encryption of the two halves, for any S-box |
| `Gost.EncryptIsCycle` | native/cryptoprofile/gost.go:23-60 | the encryption is exactly the cycle of 32 rounds under the key words 0..7 three times and then 7..0, where bit j + 11 mod 32 of a mixed word is bit j of the sum put byte by byte through the four tables, and the last round does not swap the halves |
| `Gost.KnownAnswer` | native/cryptoprofile/gost.go:23-60 | the halves a concrete key, S-box and block are encrypted to |
| `Gost.EncryptIsBijective` | native/cryptoprofile/gost.go:46-60 | decryption undoes encryption and encryption undoes decryption, for every key and S-box |
| `Gost.CounterClosedForm` | native/cryptoprofile/gost.go:70-83 | after k blocks the counter is n1 + k*0x01010101 mod 2^32 and congruent to n2 + k*0x01010104 mod 2^32-1 |
| `Gost.GammaBlocksRepeat` | native/cryptoprofile/gost.go:70-83 | two gamma blocks are equal exactly when their distance is a multiple of 2^32*(2^32-1), so none repeats among the first 2^32 |
| `Gost.GammaIsCounterMode` | native/cryptoprofile/gost.go:70-83 | byte i of the output is byte i of the input combined with byte i mod 8 of the encryption of counter i / 8, whose first value is the encrypted start value |
| `Gost.GammaIsInvolution` | native/cryptoprofile/gost.go:70-83 | applying gamma twice restores the bytes, partial last block included |
| `Gost.GammaPreservesPositions` | native/cryptoprofile/gost.go:70-83 | the outputs of two inputs differ at exactly the positions where the inputs differ |
| `Gost.GammaInPlace` | native/cryptoprofile/gost.go:68-83 | the loop writes the gamma of the source slice over the destination slice and nothing else, also when the slices are the same |
| `Gost.CfbRoundTrip` | native/cryptoprofile/gost.go:86-108 | CFB decryption restores what CFB encryption produced, for every length |
| `Gost.CfbIsOnto` | native/cryptoprofile/gost.go:86-108 | CFB encryption restores what CFB decryption produced, so both are bijections of the texts of a length |
| `Gost.CfbIsFeedback` | native/cryptoprofile/gost.go:86-95 | byte i is combined with byte i mod 8 of the encryption of the previous eight bytes of the output, or of the start value |
| `Gost.CfbEncryptInPlace` | native/cryptoprofile/gost.go:86-95 | the in-place loop writes exactly the CFB encryption of the slice, source and destination may coincide |
| `Gost.CfbKeepsLastBlock` | native/cryptoprofile/gost.go:98-108 | a difference confined to the last block keeps exactly its positions under CFB decryption |
| `Gost.CfbDecryptInPlace` | native/cryptoprofile/gost.go:98-108 | the in-place loop writes exactly the CFB decryption of the slice, although it feeds back bytes that it overwrites |
| `Gost.XorBlock` | native/cryptoprofile/gost.go:110-116 | at most eight bytes are combined at the same positions, the rest of both buffers is untouched |
| `Crc16.ComputeCRC16` | native/wire/frame.go:170-183 | the nested loop computes the register recurrence over the bytes |
| `Crc16.ChecksumIsRemainder` | native/wire/frame.go:170-183 | c is the checksum of a message exactly when it is the remainder over GF(2) of the message, its first sixteen bits inverted and sixteen zeros appended, by x^16 + x^12 + x^5 + 1 |
| `Crc16.CheckValues` | native/wire/frame.go:170-183 | the checksums of one and of two zero bytes are 0xe1f0 and 0x1d0f |
| `Crc16.ShiftLinear` | native/wire/frame.go:170-183 | the register step is linear over exclusive-or |
| `Crc16.FeedInjective` | native/wire/frame.go:170-183 | feeding the same bytes into two registers gives equal registers only if they were equal |
| `Crc16.BurstChangesChecksum` | native/wire/frame.go:170-183 | changing one byte or two adjacent bytes of a message of any length changes its checksum |
| `Crc16.ChecksumIsResidueZero` | native/wire/frame.go:170-183 | a message followed by two bytes has checksum 0 exactly when the two bytes are its checksum |
| `Frame.ByteSource.ReadFull` | native/wire/frame.go:139-166 | a full read takes exactly n bytes, a short stream is consumed and fails |
| `Frame.EncryptInPlace` | native/wire/frame.go:96-102 | gamma towards the server and CFB towards the client, applied to one slice of the frame buffer |
| `Frame.DecryptInPlace` | native/wire/frame.go:104-110 | the inverse transformation of the same direction |
| `Frame.DecryptedEncrypted` | native/wire/frame.go:96-110 | decrypting in a direction undoes encrypting in it |
| `Frame.Encode` | native/wire/frame.go:113-136 | the buffer code produces the specified frame, and fails exactly for a payload that is too long |
| `Frame.Decode` | native/wire/frame.go:139-166 | the reader code returns the specified outcome and leaves the specified rest of the stream, for every byte stream |
| `Frame.FrameRoundTrip` | native/wire/frame.go:113-166 | an encoded frame followed by anything decodes to itself, client flags masked to seven bits, and exactly its bytes are consumed |
| `Frame.DecodeConsumes` | native/wire/frame.go:139-166 | a decoded frame consumed the header and its payload, nothing else |
| `Frame.EncodedExactly` | native/wire/frame.go:113-136 | which bytes are the frame of a payload of at most 65520 bytes: the encrypted header of flags, type, length and the remainders of payload and header, then the payload, encrypted unless flag 0x80 is set |
| `Frame.DecodedExactly` | native/wire/frame.go:139-166 | a stream yields a frame and a rest exactly when it is the bytes of that frame, in the same sense, followed by the rest |
| `Frame.RefusedExactly` | native/wire/frame.go:139-166 | each other outcome has its exact condition: too few bytes, a header that is not sound, a length over 65520, a payload that is not sound |
| `Frame.StreamRoundTrip` | native/wire/frame.go:113-166 | a stream of frames decodes to the same frames and then continues with what follows |
| `Frame.DamagedFrameRejected` | native/wire/frame.go:113-183 | a frame with one byte or two adjacent bytes changed is rejected: by the header checksum if the header is hit, else by the payload checksum, for every client frame, every plain one, and every hit in the last cipher block of an encrypted server frame |
| `Codec.Int64RoundTrip` | native/wire/codec.go:48-83 | a packed 64-bit value is read back unchanged exactly when it is not the least 32-bit integer, which comes back as the least 64-bit one |
| `Codec.Int32RoundTrip` | native/wire/codec.go:43-83 | every 32-bit value is read back and takes one to five bytes |
| `Codec.PackedForm` | native/wire/codec.go:52-83 | the packed form in bits: sign, number of extra bytes, low four bits and then the rest of the magnitude in little-endian bytes |
| `Codec.PackedRead` | native/wire/codec.go:166-197 | what any bytes are read as: the magnitude bit by bit, the sign, and the length their first byte states |
| `Codec.TextForm` | native/wire/codec.go:28-37 | a text is written as far as its first NUL or the maximum, with one NUL behind it |
| `Codec.TextRead` | native/wire/codec.go:139-154 | a text is read exactly if there is a NUL within the maximum, and it is what stands before the first one |
| `Codec.StringReadsBack` | native/wire/codec.go:29-37 | a string is read back as far as its first NUL and its maximum, and what follows is untouched |
| `Codec.StoredUnchanged` | native/wire/codec.go:22-83 | the fields that come back unchanged are exactly those without an early NUL, over-long text or the least 32-bit integer in 64 bits |
| `Codec.FieldsRoundTrip` | native/wire/codec.go:22-197 | any typed field list followed by any bytes is read back as stored with the suffix untouched |
| `Codec.ReadFieldsLocal` | native/wire/codec.go:117-197 | what is read depends only on the bytes that are consumed |
| `Payload.AppendPacked` | native/wire/codec.go:56-83 | the digit loop appends exactly the packed form |
| `Payload.Writer.String` | native/wire/codec.go:29-37 | the writer appends the text cut at its first NUL and at max, and one NUL |
| `Payload.Writer.Int32` | native/wire/codec.go:43-43 | the writer appends the packed form of the value |
| `Payload.Writer.Int64` | native/wire/codec.go:48-50 | the writer appends the packed form of the value |
| `Payload.Reader.String` | native/wire/codec.go:145-154 | a bounded NUL-terminated string is read as specified, a failure does not move the reader |
| `Payload.Reader.CString` | native/records/news.go:42-61 | the byte loop accepts the same inputs with the same result as Reader.String, only a failure has consumed what it looked at |
| `Payload.Reader.Packed` | native/wire/codec.go:172-197 | the digit loop reads the specified value and length, or fails without moving |
| `Payload.Reader.Int32` | native/wire/codec.go:158-164 | the packed value with the least 64-bit integer mapped to the least 32-bit one, wrapped to 32 bits |
| `Splitter.SkipBody` | native/records/records.go:69-444 | the tag dispatch consumes exactly the body the specification finds, or reports the same failure |
| `Splitter.NextRecord` | native/records/records.go:69-444 | tag, body and new position of the next record |
| `Splitter.SplitPayload` | native/records/records.go:69-444 | the splitter loop with its recursion on wrapper bodies returns the specified records and error for every payload |
| `Splitter.EmitBody` | native/records/records.go:84-106 | a wrapper body is split in place; with an unknown nested record it is salvaged as specified |
| `Splitter.SkipQuotation` | native/records/records.go:382-399 | the splitter skips as many packed values as the mask has ones |
| `Splitter.SkipHistory` | native/records/records.go:215-270 | a history record is taken only if it ends the payload |
| `Splitter.SkipNewsUpload` | native/records/news.go:140-188 | the optional header and the package in its two forms, whose end comes from the size or from the compressed stream |
| `Splitting.StepLocal` | native/records/records.go:69-444 | every record except R_HISTORY is recognised by its own bytes alone |
| `Splitting.SplitConcat` | native/records/records.go:69-444 | if p splits without R_HISTORY, p followed by q splits into the records of p and those of q, offsets and errors of q included |
| `Splitting.SplitShift` | native/records/records.go:69-444 | splitting at another offset gives the same records and shifted error offsets |
| `Splitting.SplitInvertsSerialize` | native/records/records.go:69-444 | splitting inverts writing any list of complete records and goes on with what follows |
| `Splitting.SizedComplete` | native/records/records.go:75-83 | a sized record of any body is complete |
| `Splitting.FieldsComplete` | native/records/records.go:109-444 | any fields of the right kinds form a complete record |
| `Splitting.SectionComplete` | native/records/options.go:124-159 | any head, turns and end mark of the right kinds form a complete record |
| `Splitting.ServerMessageComplete` | native/records/records.go:128-150 | a server message forms a complete record exactly for types 1 and 2 and a status other than 4 |
| `Splitting.PrefixedComplete` | native/records/records.go:151-436 | a length-prefixed record of any body is complete, and so is a session record |
| `Splitting.NewsUploadComplete` | native/records/news.go:140-188 | every form of a news upload is complete, the compressed one if the inflater finds its end |
| `Splitting.Resplit` | native/records/records.go:84-106 | re-splitting a wrapper prefix as unbounded gives the records before the unknown one exactly when the offset is that of the tag and no record took its optional byte |
| `Splitting.SalvageExact` | native/records/records.go:84-106 | the salvage keeps all leading records exactly when there are none, or the unknown record is of the default kind and no R_FORTS_SESSION precedes it |
| `Splitting.SalvageLosesRecords` | native/records/records.go:400-419 | a concrete wrapper whose leading record is lost because 0x69 reports an offset one byte late |
| `Nesting.WrapperSplit` | native/records/records.go:84-106 | a wrapper around any body of at most 65535 bytes yields all records of the split of the body if it has no error, the salvaged ones and the rest as one record if a nested record is unknown, and its own error alone if a nested record is malformed |
| `Nesting.TreeSplit` | native/records/records.go:69-107 | complete records wrapped to any depth come out of the splitter one after another, followed by the records of what stands behind |
| `Nesting.SessionTakesByte` | native/records/records.go:310-320 | why a session record within a wrapper has to be the last: there it takes a byte of its successor, at top level it does not |
| `Composing.TagsUnderstood` | native/records/records.go:74-441 | the tags that are understood; every other is reported as unknown |
| `Composing.SizedTags` | native/records/records.go:75-108 | the twelve tags with a length of two bytes, and what is malformed about them |
| `Composing.FixedTags` | native/records/records.go:109-438 | the tags whose body has a fixed number of bytes, and the one with a length of one byte |
| `Composing.UrtExactly` | native/records/records.go:400-419 | a record of 0x69 ends with its first byte 0xff, without one it is unknown at the byte after its tag |
| `Composing.BoardComesBack` | native/records/records.go:453-471 | a board record is read back exactly if its three texts fit 7, 30 and 8 bytes, and the splitter takes what the reading takes |
| `Composing.ComposedExactly` | native/records/options.go:44-218 | each of the separately parsed records, written field by field, is read back as itself exactly if its texts fit their bounds, its wide numbers are not the one that is not kept, and no entry of a list looks like its end |
| `Composing.RecordSent` | native/records/records.go:69-444 | such a record written into a payload leaves the splitter as one record whose body parses to what was written |
| `Composing.TradesComeBack` | native/records/ticks.go:35-83 | a list of trades is read back field by field exactly if each trade can be stored and none has the identifier of the end mark |
| `Composing.StrikesComeBack` | native/records/options.go:124-159 | a list of strikes is read back exactly if every code is not empty and fits 26 bytes |
| `Composing.LevelsComeBack` | native/records/misc.go:69-115 | a list of levels is read back exactly if each has the fields its flags announce, no others, and its text fits |
| `Composing.BookComesBack` | native/records/quote.go:40-78 | an order book of absolute prices, written as differences, is read back with its sides, prices and quantities |
| `Composing.UploadComesBack` | native/records/news.go:204-257 | an upload in each of its forms is read back with identifier, header and package |
| `Parsers.SplitterAndParserAgree` | native/records/options.go:58-218 | for each record with a parser of its own (R_MSG, R_SEC_RATE, 0x0e, R_RES, R_OVERNIGHT, news, R_DATE, TICK, AmBOOK, R_UNION, R_FORTS_SESSION, R_EDP_RATE, families and strikes): the splitter takes exactly a body from a stream iff that parser, written apart from the splitter, reads the body to its end |
| `Parsers.EmittedBodyParsed` | native/records/options.go:58-218 | each of these parsers, the strict ones included, accepts every body the splitter emits for it |
| `Parsers.UploadAgrees` | native/records/news.go:204-257 | the same for news uploads, with an abstract inflater |
| `Parsers.QuotesAcceptedExactly` | native/records/quote.go:40-76 | the R_QUOTES parser accepts a split body exactly when every side before the end mark is B or S, and then both stop at the same place |
| `Parsers.UnknownSideRefused` | native/records/quote.go:56-64 | a concrete R_QUOTES body with side X is split and refused by its parser |
| `Parsers.ReadExtends` | native/records/options.go:58-218 | what a parser finds in a body it would find in any payload that starts with it |
| `Parsers.TakeTrades` | native/records/ticks.go:35-83 | the trade loop returns the specified trades, or fails, for every body |
| `Parsers.TakeItems` | native/records/options.go:124-159 | the strike loop up to its empty code returns the specified strikes |
| `Parsers.TakeQuotes` | native/records/quote.go:50-76 | the level loop with its running price returns the specified quotes |
| `Parsers.TakeLevels` | native/records/misc.go:69-115 | the AmBOOK loop with its optional fields returns the specified levels |
| `Parsers.TicksRoundTrip` | native/records/ticks.go:113-157 | ticks written as differences to their predecessors are read back as they were, whatever follows the end mark |
| `Parsers.ParseTicksReply` | native/records/ticks.go:113-157 | the loop with its running sums computes the specified ticks for every reply; on an error the ticks before it are still returned |
| `Quotation.BitsAreOnes` | native/records/quotation.go:47-74 | walking the 64 bits reads exactly as many integers as the mask has ones |
| `Quotation.SplitAndParsed` | native/records/records.go:382-399 | splitter and parser succeed on the same bytes and take the same number of them |
| `Quotation.ValuesOfSetBits` | native/records/quotation.go:47-74 | there is a value for exactly the set bits |
| `Quotation.ValuesRoundTrip` | native/records/quotation.go:47-74 | values written for the set bits in ascending order are read back under their bit numbers |
| `Quotation.QuotationComplete` | native/records/quotation.go:47-74 | a quotation with a value for each set bit is a complete record exactly unless its mask is the least 32-bit integer |
| `Quotation.ParseQuotation` | native/records/quotation.go:47-74 | the parser code returns the specified quotation or fails |
| `History.ParseHistory` | native/records/candles.go:43-95 | the reader loop returns the specified candles and status or fails |
| `History.CandlesRoundTrip` | native/records/candles.go:43-95 | a body of any number of candles and a status parses back to exactly itself |
| `History.ParseAcceptsExactly` | native/records/candles.go:43-95 | the parser accepts exactly the bodies the splitter takes whole that end in a status 0..3 |
| `History.HistorySplits` | native/records/records.go:215-270 | a payload that is one history record splits into exactly that record |
| `History.Event` | native/records/candles.go:107-163 | the event of a part under its names: units accumulated and dated by the period of the dictionary, absolute prices with the decimals of the pit, the bars reversed in place, a warning if the period is unknown |
| `History.EventMeaning` | native/records/candles.go:107-163 | from known candles, sent as differences, the event restores units, the four prices each under its name, volume, open interest, instant and decimals |
| `History.DecimalsOfDeciding` | native/records/catalog.go:132-146 | the decimals are those of the first pit of the board, else of the first default pit, else zero |
| `History.PeriodChosen` | native/records/candles.go:168-182 | which kind decides the period, and that without one only kind 1 has a period, of sixty seconds |
| `History.FindPeriod` | native/records/candles.go:168-182 | the first kind of the number with a positive period, one minute for kind 1, else none |
| `History.SecondLookupIdle` | native/records/candles.go:110-122 | looking up zero decimals a second time never finds anything else |
| `History.ReverseInPlace` | native/records/candles.go:150-162 | the swapping loop reverses the array |
| `History.CombineCandles` | native/records/candles.go:187-215 | a reply in parts comes to the reverse of all decoded candles in arrival order, with names and status of the last part |
| `History.WarnedOnce` | native/records/candles.go:192-208 | every period that could not be dated is warned of exactly once |
| `History.CombinedChronological` | native/records/candles.go:187-215 | the combined series is strictly chronological exactly when in every part each later candle steps back and each part starts before the oldest candle received before it |
| `History.ArrivedFalls` | native/records/candles.go:187-215 | the same condition for the arrival order, and the oldest candle received so far |
| `History.DatedChronological` | native/records/candles.go:107-215 | in a dated series whose seconds fit into 64 bits the instants ascend under the same condition |
| `History.HistoryDesk.Register` | native/client_history.go:47-93 | a series is registered at most once at a time |
| `History.HistoryDesk.AddPart` | native/client_history.go:104-120 | a part with status 2 is kept, any other completes the request with all its parts combined; unknown series are ignored |
| `History.HistoryDesk.Drop` | native/client_history.go:95-101 | only the own registration of a request is removed |
| `History.HistoryDesk.FailAll` | native/client_history.go:124-132 | every request in flight is failed and forgotten |
| `Session.Conn.ReadNext` | native/session/login.go:514-530 | the loop skips the replies of abandoned requests and drops the list on another reply |
| `Session.Conn.Request` | native/session/login.go:460-509 | one exchange changes counter, abandoned list, stream and requests sent as specified and returns the specified verdict |
| `Session.FrameJudged` | native/session/login.go:502-508 | a frame of kind 3 is a goodbye, one of kind 2 and the type of the request is its answer, any other is incorrect |
| `Session.CounterMoves` | native/session/login.go:464-483 | counter and last type move for every armed request except types 63 and 64 |
| `Session.SkippedExactly` | native/session/login.go:514-530 | which frames are skipped as answers of abandoned requests, which one is returned and what is left of the list |
| `Session.ExchangeMatched` | native/session/login.go:460-530 | on a synchronized link a successful exchange returns the answer to its own request; the link stays synchronized unless the wait ended by the plain request timeout |
| `Session.TimeoutMismatch` | native/session/login.go:495-499 | after a plain timeout the next request of the same type is given the stale reply |
| `Session.RunExact` | native/session/login.go:460-530 | over every run of requests, cancellations, timeouts, recoveries and closes a successful exchange returns the answer to its own request exactly when no request before it ended by the plain timeout since the last successful recovery |
| `Session.ExchangeLags` | native/session/login.go:495-530 | once a plain timeout has happened no exchange returns its own answer, only earlier ones |
| `Session.RunMatched` | native/session/login.go:460-530 | in a run in which no wait ended by the plain timeout every successful exchange returns its own answer and none fails by a reply out of turn |
| `Session.SeqCountsAttempts` | native/session/login.go:460-509 | the counter sent in RQ_RECOVER is the number of attempted ordinary requests modulo 2^32, those never sent included |
| `Session.TransactionClassified` | native/session/transact.go:131-171 | a transaction fails as an ordinary error exactly when nothing was handed to the socket; its number or rejection is the one sent for it |
| `Session.VerdictRoundTrip` | native/session/transact.go:98-127 | a written accepted reply is read back with its number |
| `Session.VerdictExactly` | native/session/transact.go:98-127 | a reply is a rejection with code c exactly when it starts with c and c is not 0, an acceptance of n exactly when 0 and a packed n start it; the call fails as an ordinary error exactly when nothing was handed to the socket, and every other outcome is unknown |
| `Session.RejectionsAreTold` | native/session/transact.go:98-127 | a transaction whose answer starts with any code but 0, whatever follows, ends in the rejection with that code |
| `Session.HandshakeRoundTrip` | native/session/recover.go:38-67 | token, server id and counter of the handshake are read back as written |
| `Session.HandshakeExactly` | native/session/recover.go:102-137 | each outcome of a handshake has its exact condition on the two replies |
| `Session.Conn.Transact` | native/session/transact.go:98-171 | the transaction exchange, its numbers and its classification; an ordinary error has written nothing |
| `Session.FiledUnderOwnNumber` | native/session/transact.go:98-171 | an unknown outcome is filed under the number of its own call exactly when a reply was read or no other transaction began in the meantime |
| `Session.Conn.Restore` | native/session/recover.go:75-146 | each way a handshake can fail, the requests it has written by then, and that only a complete one with the same server replaces the socket, clears the abandoned list and closes the old socket |
| `Session.RecoveredAsked` | native/session/recover.go:75-146 | a recovery has sent the login and then the token the same server issued with the count of ordinary requests |
| `Session.Conn.Close` | native/session/login.go:542-551 | the socket is detached and closed |
| `Lifecycle.StepKeepsInv` | native/connector.go:1511-1813 | every atomic step of connect, disconnect, Close and the workers keeps the ownership invariant |
| `Lifecycle.RunKeepsInv` | native/connector.go:1511-1970 | so does every interleaving |
| `Lifecycle.SessionsEndOnce` | native/connector.go:1511-1945 | in every interleaving each opened session is ended at most once, and exactly once when nothing is going on any more; client is set exactly when connected |
| `Lifecycle.SessionsCounted` | native/connector.go:1548-1945 | there are exactly as many sessions as dials that succeeded, with or without dictionaries |
| `Lifecycle.DialTurn` | native/connector.go:1548-1945 | a dial that succeeds makes its session the running one, unless it was cancelled; a failed dial opens none |
| `Lifecycle.DictionariesTurn` | native/connector.go:1548-1945 | a session whose dictionaries fail to load is ended at once and never becomes the running one |
| `Lifecycle.LossTurn` | native/connector.go:1548-1945 | a worker that loses its session ends it, clears client and leaves the connector disconnected |
| `Lifecycle.DisconnectTurn` | native/connector.go:1890-1945 | a disconnect cancels its worker, waits for it and ends the session |
| `Lifecycle.ComesToRest` | native/connector.go:1511-1970 | however the steps of what has begun are ordered there are boundedly many of them, and they stop exactly when no command is under way and every worker is done, save one whose session is up |
| `Lifecycle.CommandsComplete` | native/connector.go:1890-1970 | once a disconnect or Close has begun every order of the steps ends with the command finished and every worker done |
| `Lifecycle.RestReachable` | native/connector.go:1511-1970 | from every reachable state the connector can come to rest with every worker done, without a further command |
| `Lifecycle.ClosedIsQuiet` | native/connector.go:1948-1970 | after Close the last worker is done, and every worker unless connects overlapped |
| `Lifecycle.EarlierWorkerOutlives` | native/connector.go:1948-1970 | from every reachable state an earlier worker can stay exactly where it is while Close completes |
| `Lifecycle.OutlivesExactly` | native/connector.go:1948-1970 | in every reachable state the workers that can be alive when Close has completed are exactly the live ones no command under way waits for |
| `Lifecycle.OverlapOutlivesClose` | native/connector.go:1948-1970 | a concrete schedule in which an earlier worker has yet to report after Close |
| `Recovery.OverrideMeansServerValue` | native/recover.go:97-121 | an override of v seconds means what v means in the server reply, for every v but 0 |
| `Recovery.TimeoutsFit` | native/recover.go:97-133 | the window is at least 300 ms, the request timeout positive and shorter than it, normalizing twice is normalizing once |
| `Recovery.WindowInFigures` | native/recover.go:97-133 | the recovery window and the default request timeout in nanoseconds, for each range of the server value and of the override |
| `Recovery.Recover` | native/recover.go:143-178 | the attempts are paced by one second and cut to the window, and the outcome is the one its last attempt implies |
| `Recovery.RecoveryBounded` | native/recover.go:143-178 | at most floor(window/1s)+1 attempts, all inside the window, over within window+1s |
| `Recovery.BoundIsTight` | native/recover.go:143-178 | the bound is reached when every attempt fails at once |
| `Recovery.RecoveryDetermined` | native/recover.go:143-178 | the surroundings determine attempts and outcome, so the contract of the loop leaves nothing open |
| `Recovery.FatalErrors` | native/recover.go:72-80 | an attempt ends the recovery at once exactly if its error is a goodbye, a wrong relogin or recover reply, or a damaged payload of type 64; any other lets it go on to its end |
| `Recovery.AttemptsCut` | native/recover.go:147-165 | an attempt has ten seconds, or what is left of the window, and the next one starts a second after it |
| `Recovery.StatusesWellFormed` | native/client.go:432-489 | in every interleaving the handler sees (batch / recover connected)* and then at most recover, or recover down |
| `Recovery.OutcomesTold` | native/client.go:459-479 | in every run each loss is followed by the report of a restored link exactly if its recovery succeeded and was not cancelled, by the report of a lost one exactly if it failed and was not cancelled, and by nothing otherwise |
| `Recovery.LossTurn` | native/client.go:450-479 | a loss that the handler takes and nobody cancels: what is logged until the end of its recovery, and that the loop goes on after a restored link and has returned after a lost one |
| `Recovery.ReplyTurn` | native/client.go:445-487 | a handled batch lets the loop poll again exactly if there is more; a refused one ends it |
| `Recovery.ErrorTurn` | native/client.go:450-456 | an error that is no loss of the link ends the run and nothing is logged |
| `Recovery.ReturnedIsFinal` | native/client.go:432-489 | a run that has returned logs nothing more |
| `Recovery.OwnCloseNotRecovered` | native/client_password.go:45-55 | a socket closed by a fatal change_pass never starts a recovery |
| `Recovery.FatalEndsRecoveries` | native/client.go:432-489 | once the failure is marked no further recovery begins except one already judged |
| `Recovery.CloseFirstRecovers` | native/client_password.go:45-55 | with the opposite order of mark and close a schedule does start a recovery |
| `Subscriptions.OrderIrrelevant` | native/client_subscribe.go:82-87 | the order of the items, sorted or not, makes no difference to the table |
| `Subscriptions.ChangeKeepsImage` | native/client_subscribe.go:35-110 | after a successful change the table is the image of the masks through the catalog |
| `Subscriptions.ResubscribeRestoresImage` | native/recover.go:287-325 | resubscribing on an empty table makes it the image of the masks |
| `Subscriptions.AddKeepsImage` | native/records/catalog.go:85-95 | a new security keeps the image exactly when each subscribed symbol it registers already stood for it |
| `Subscriptions.StepKeepsImage` | native/client_subscribe.go:35-110 | every successful call and catalog record keeps the image |
| `Subscriptions.ServerKnowsSelection` | native/client_subscribe.go:35-110 | after any run the server sends a feed of a tradable symbol exactly when the last call naming it was a subscribe |
| `Subscriptions.MasksInFigures` | native/session/requests.go:91-95 | which masks have which feed: bit 1 quotations, bit 2 quotes, bit 4 all trades |
| `Subscriptions.LastBoardFound` | native/records/catalog.go:44-57 | a number or a code finds the last board that has it |
| `Subscriptions.NewCatalogCoherent` | native/records/catalog.go:44-57 | a catalog of unique boards is coherent |
| `Subscriptions.AddedCoherent` | native/records/catalog.go:85-95 | a security that keeps its seccode keeps the catalog coherent |
| `Subscriptions.FlagBits` | native/records/catalog.go:202-233 | which flag bits the attribute records change |
| `Subscriptions.Catalog.constructor` | native/records/catalog.go:44-57 | boards are indexed by number and code, the last of equals winning |
| `Subscriptions.Catalog.AddSecurity` | native/records/catalog.go:85-95 | the security is registered under every known board of its pits, and in the arrival order once |
| `Subscriptions.Catalog.DrainPending` | native/records/catalog.go:29-41 | each security is delivered once, in arrival order |
| `Subscriptions.Catalog.Mutate` | native/records/catalog.go:202-233 | an attribute record changes the flags of its security and nothing else; other tags and short bodies are refused, an unknown security is passed over |
| `Subscriptions.Client.BuildNext` | native/client_subscribe.go:37-54 | three passes over the lists give each symbol named its new mask, also if it is named twice |
| `Subscriptions.Client.ChangeSubscription` | native/client_subscribe.go:35-110 | a success is a step of the run model, each error has its condition, a failure leaves the masks alone |
| `Subscriptions.Client.Reconnect` | native/recover.go:212-325 | when it succeeds and that success is a reconnect step of the run model; a refused dial or login changes nothing, a later failure detaches the connection |
| `Events.BatchMessages` | native/client.go:378-401 | all messages of a reply make one batch in the place of the first, the other events keep their order |
| `Events.BelongingLength` | native/client_orders.go:215-232 | the two halves of the partition conserve the waiting orders |
| `Events.EachInItsPlace` | native/client.go:381-401 | each event is found again, a message in the batch, any other among the rest, after those that came before it |
| `Events.BelongingExactly` | native/client_orders.go:215-232 | each half of the partition holds exactly the orders of its kind, in their order |
| `Events.StoredLast` | native/client_orders.go:164-172 | of several orders with one number the last is stored |
| `Events.StoredOthers` | native/client_orders.go:164-172 | orders of other numbers are left as they were |
| `Events.ListedExactly` | native/client_orders.go:164-172 | the list has each number once, the old ones first and new ones in order of first arrival |
| `Events.OrderStore.Put` | native/client_orders.go:164-172 | an order is stored once in the order of first arrival |
| `Events.OrderStore.FlushPending` | native/client_orders.go:215-232 | the orders of the client are reported and stored with their values and in their order, the others compacted in place |
| `ResponseQueue.StepKeepsInv` | client/response_queue.go:18-75 | every atomic step keeps the queue invariant |
| `ResponseQueue.NothingLost` | client/response_queue.go:18-75 | popped then queued messages are the accepted ones; a blocked consumer faces an empty open queue, a token or a signaller; pop ends only when drained and closed or done |
| `ResponseQueue.AcceptedExactly` | client/response_queue.go:18-28 | the accepted messages are exactly those pushed before the first close, in their order |
| `ResponseQueue.ClosedAcceptsNothing` | client/response_queue.go:18-28 | a closed queue accepts nothing more |
| `ResponseQueue.WakesUp` | client/response_queue.go:30-75 | whenever a message is queued or the queue closed, the steps already due let pop return it |
| `ResponseQueue.DoneStops` | client/response_queue.go:30-66 | once done has fired a call ends at once, without a message unless it was about to look at the queue |
| `Broker.Broker.Subscribe` | server/broker.go:29-48 | a new subscriber starts at the end of the log, on a closed broker it is done at once |
| `Broker.Broker.Publish` | server/broker.go:52-67 | each attached subscriber gets the message or, if full, is detached as slow with done closed |
| `Broker.Broker.OfferAll` | server/broker.go:58-66 | the loop serves every subscriber once and removes exactly the full ones |
| `Broker.Broker.Close` | server/broker.go:69-80 | every done channel has been closed exactly once |
| `Broker.Broker.Unsubscribe` | server/broker.go:82-90 | an attached subscriber is detached once, a detached one is left alone |
| `Broker.Subscription.Receive` | server/broker.go:12-23 | a receive moves one message from buffered to received |
| `Broker.SubscribersAgree` | server/broker.go:52-67 | received and buffered messages are a contiguous piece of the log, so two subscribers never disagree about a message |
| `Proposals.StepKeepsInv` | terminal/agent/proposals.go:96-272 | every locked section and tool execution keeps the invariant |
| `Proposals.ApprovalsSafe` | terminal/agent/proposals.go:96-272 | in every run a tool runs at most once and only after a timely Approve, a rejected proposal never runs, the ring holds the newest hundred, envelope approvals stay within the limit |
| `Proposals.AnswersExactly` | terminal/agent/proposals.go:96-118 | which answer Approve and Reject give for which status and time, and what a refused call changes |
| `Proposals.ApproveRuns` | terminal/agent/proposals.go:96-135 | an accepted approval runs the tool once, stores its result and leaves other proposals alone; a rejection runs nothing |
| `Proposals.SlotTaken` | terminal/agent/proposals.go:250-263 | an envelope slot is taken exactly while the limit is not reached |
| `Proposals.ProposedKeepsRing` | terminal/agent/proposals.go:215-236 | a new proposal evicts the oldest beyond a hundred, with its result |
| `Proposals.ResultsWithinRing` | terminal/agent/proposals.go:128-130 | the results stay within the ring except when the outcome of an evicted proposal is recorded |
| `Proposals.StaleResultStays` | terminal/agent/proposals.go:128-130 | such a result is never removed |
| `Proposals.StaleResultReachable` | terminal/agent/proposals.go:96-135 | and it does occur |
| `Conversation.TurnGroups` | terminal/agent/conversation.go:177-186 | the loop divides the messages into turns, each but the first starting with the user |
| `Conversation.TurnsUnique` | terminal/agent/conversation.go:177-186 | there is only one such division |
| `Conversation.Trim` | terminal/agent/conversation.go:142-172 | the history becomes the system prompt and the specified newest turns |
| `Conversation.TrimmedWithin` | terminal/agent/conversation.go:142-172 | a trimmed history is within both bounds or a single turn; one within the bounds is unchanged; the newest turn is kept whole |
| `Conversation.TrimMinimal` | terminal/agent/conversation.go:153-161 | trimming drops no turn needlessly exactly when the byte budget held or the two newest turns break a bound |
| `Conversation.SizeOfOne` | terminal/agent/conversation.go:189-200 | the size of a history is the sum of the sizes of its messages |
| `Conversation.TrimCuts` | terminal/agent/conversation.go:142-172 | what remains is the system prompt and a tail of the history that starts with a user message |
| `Conversation.TrimStable` | terminal/agent/conversation.go:142-172 | trimming twice is trimming once |
| `Conversation.Store.Load` | terminal/agent/conversation.go:67-79 | a known dialog is returned and becomes the most recent |
| `Conversation.Store.Append` | terminal/agent/conversation.go:82-97 | least recently used eviction, most recent position and trimming of one dialog, the others untouched |
| `Conversation.Store.Reset` | terminal/agent/conversation.go:100-111 | one dialog is forgotten |
| `Conversation.Store.Evict` | terminal/agent/conversation.go:130-137 | the oldest dialog leaves a full store |
| `Decimals.FixedDecimal` | native/xmlcompat/render.go:436-454 | the padding loop prints the specified digits |
| `Decimals.FixedShape` | native/xmlcompat/render.go:436-454 | the text is a minus for a negative number, digits without needless zeros in front, a point and exactly the digits of the scale; together they are the units |
| `Decimals.FixedRoundTrip` | native/xmlcompat/render.go:436-454 | ParseDecimal inverts fixedDecimal exactly unless the units are the least integer with twenty or more digits |
| `Decimals.ParsePlain` | native/model/order.go:65-85 | signed plain numbers parse to their value and scale, out of range they fail |
| `Decimals.ShapeParsed` | native/model/order.go:65-85 | between spaces: an optional minus, an optional plus (or behind a minus a second one), digits, and digits behind an optional point are parsed to the number of their digits and the length of the fraction mod 256, or refused if they are out of range or no digit follows a sign |
| `Decimals.ParsedHasShape` | native/model/order.go:65-85 | no other text is parsed |
| `Decimals.TextRoundTrip` | native/model/decimal.go:20-42 | parsing what String prints gives the same value, for every decimal but those of the least integer |
| `Decimals.TextShape` | native/model/decimal.go:18-42 | String prints a minus, digits without needless zeros in front, a point and a fraction without trailing zeros but for its first digit, together the same value |
| `Decimals.PrintEqualIffSameValue` | native/model/decimal.go:20-42 | two decimals print alike exactly when their values are equal and both or neither have fractional digits |
| `Money.RescaleUnits` | native/client_orders.go:270-280 | the digit loops compute the wrapped or truncated units |
| `Money.RescaledTruncates` | native/client_orders.go:270-280 | fewer digits truncate toward zero, more digits are exact when the product fits |
| `Money.RescaleRoundTrip` | native/client_orders.go:270-280 | scaling up and down restores the units exactly when the product fits |
| `Money.RescaleMoneyUnits` | native/xmlcompat/render.go:832-843 | the digit loops rescale to two digits |
| `Money.Fixed2` | native/xmlcompat/render.go:828-830 | prints the rescaled units with two digits |
| `Money.Fixed2Decimal` | native/xmlcompat/render.go:937-951 | prints the rescaled units with two digits |
| `Money.PowerVanishes` | native/records/secinfo.go:248-257 | the wrapped power of ten is zero exactly from the exponent 64 on |
| `Money.AtOnceExact` | native/xmlcompat/render.go:415-432 | rescaling at once divides by zero exactly for gaps of 64 digits and more, and is rescaling digit by digit exactly when the amount is representable |
| `Money.FixedMoney` | native/xmlcompat/render.go:415-432 | prints the units rescaled at once, for all scales, and nothing where it would divide by zero |
| `Money.MoneyHundredths` | native/xmlcompat/render.go:207-228 | prints quotient and remainder of the rescaled units as fixed digits, for all scales |
| `Money.SpecAgrees` | native/records/secinfo.go:248-280 | quotient and padded remainder print like fixedDecimal exactly when the amount is representable at the scale |
| `Money.SpecDecimalFixed` | native/records/secinfo.go:248-280 | prints quotient and padded remainder of the units rescaled at once, for all scales |
| `Money.MoneyPrintersAgree` | native/xmlcompat/render.go:207-228 | for every decimal the exact condition under which each of the five printers prints the amount truncated toward zero, which reads back as its units |
| `Xml.CdataRoundTrip` | native/xmlcompat/render.go:1005-1007 | any text in a CDATA section is read back by a reader that ends each section at its first end mark |
| `Xml.CdataSplits` | native/xmlcompat/render.go:1005-1007 | the first end mark of a text is divided between two sections, and what follows it is treated in the same way |
| `Xml.CdataUnchanged` | native/xmlcompat/render.go:1005-1007 | a text without an end mark stays as it is |
| `Xml.XmlEscape` | native/xmlcompat/securityxml.go:172-192 | the loop replaces exactly the five characters |
| `Xml.EscapeRoundTrip` | native/xmlcompat/securityxml.go:172-192 | decoding the predefined entities restores the text, which holds no markup character |
| `Xml.OrderPits` | native/xmlcompat/securityxml.go:231-242 | the first default pit after the first position moves to the front, the others keep their order |

## Left out

- Frame.DamagedFrameRejected: a hit before the last cipher block of an encrypted payload from the server is not covered, because CFB spreads it over the next block and whether the checksum then notices depends on the S-box.
- Splitting.SplitConcat: a payload with R_HISTORY is excluded, because the end of that record is the end of the payload; the compressed streams of R_NEWS_UPLOAD are a function that finds its own end.
- Session.RunExact: the server answers each request once and in order, and waits end on frame boundaries; Logout, which sends without waiting for a reply, is not an operation of a run.
- Session.Conn.Request: the deadline is an outcome given from outside, a request written in part is not recorded as sent; the same holds for Session.Conn.Restore, whose two replies are given.
- Lifecycle.StepKeepsInv: a state machine on values, one step per locked section, because several threads interleave; goroutines, the message texts and the number of connected="false" messages are not modelled.
- Recovery.Recover: an ideal clock on which pauses take exactly one second and an attempt ends with its timeout.
- Recovery.OwnCloseNotRecovered: no Reconnect runs at the same time, as Reconnect clears the mark.
- Subscriptions.ServerKnowsSelection: successful sequential calls, unique board codes and numbers, a stable seccode per secid, and no subscribed symbol taken over by another secid between calls; Subscriptions.AddKeepsImage shows the last condition is needed. The RQ_SEC_SPEC refresh is not modelled.
- Subscriptions.Client.Reconnect: dial and login are one outcome, loading another; the account and order state it clears is not part of this model.
- ResponseQueue.NothingLost: a state machine on values with one consumer, as the client has.
- Broker.Broker.Subscribe: the identifier counter does not wrap at 64 bits.
- Proposals.ApprovalsSafe: a state machine on values; identifiers are numbers, and arguments, summaries and events are not modelled.
- Conversation.Trim: the size of a message is given, JSON is not modelled.
- Money.MoneyHundredths: beyond 20 digits it divides by a converted floating-point power of ten, which is a parameter.
- History.Event: the accumulated periods do not wrap at 64 bits (a record is too short for that), the seconds made of them do; an instant is a number of seconds.
- Xml.CdataRoundTrip: the replacement is the left-to-right, non-overlapping one of the standard library.
- The concrete S-box: every cipher theorem holds for an arbitrary table.
- SHA-1, zlib, CP1251, JSON and time formatting: library code, abstracted or absent.
- Login, the password reply and dictionaries: straight-line field reads.
- The XML command switch, the XML builders beyond escapes and numbers, and one-field validations: wide but shallow.
- Sockets, gRPC, NATS, cgo, the Win32 DLL, logging and configuration: foreign calls.
- Margin, hints, volatility, autonomy, paper trading and backtests: floating point or not protocol code.
- The native intent parser, generated code, the recorder and the test server.
- Error texts: errors are distinguished by kind only.
