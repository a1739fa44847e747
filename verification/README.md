# The message checksum pipeline of the DCC client

This project models, in Dafny, what happens to the bytes of a mail message on their way into the
body checksum and the second fuzzy checksum of the DCC client's Go package `dcc`, together with
the URL host-name machine that the fuzzy checksums share. A hash is modelled as the byte string it
was given, so every statement is about which bytes reach a hash, in which order.

The parts, from the message down:

* `MimeMessage.Cks` reads header fields and the body. `Multipart.Run` is the walk over a multipart
  body as a function of the text, line by line; `Boundaries` says what a delimiter line is and
  proves the incremental matcher against it; `MimeHeader` is the header machine of twenty states,
  `HeaderParser.HdrParser` the same machine over fields; `MimeSteps`, `MimeFields` and `MimeTypes` run
  whole header fields through it, and `HeaderLines` the header lines of an entity. `MultipartParts`,
  `MultipartTree` and `MultipartText` follow whole multipart messages, multipart entities inside
  them included, from the header field to the bytes of the body checksum, and `MultipartNested` says
  when a delimiter behind a nested body is found. `MultipartHashes` follows the same messages into the
  second fuzzy checksum. `FieldTexts` has header fields as they are written, in any case, and
  `MultipartBytes` one CR LF body byte by byte.
* `Pipeline` says what a part of a message does to the decoders and checksums; `DecodeSum.Decoders`
  is the loop that does it, over a buffer of 1024 bytes. `QuotedPrintable` and `Base64` are the two
  transfer decoders; `Base64Bits` has the arithmetic of the 32-bit quantum, `Base64Text` reads it as
  sextets, `Base64Settles` has the round trip and says when the output buffer does not show, and
  `Base64Padding` an input for which it does.
* `BodyFilter` is the filter in front of the body checksum. `Fuz2Machine` and `Fuz2` are the second
  fuzzy checksum as a machine over bytes and as the program's nested loops; `Fuz2Words` defines it
  by words, `Fuz2Tags` says what a tag does, `Fuz2Html` what a text full of them is hashed as,
  `Fuz2Plain` what a '<' does in other text, `Fuz2Texts` what any kind of text leaves behind, and
  `Fuz2Sums` which texts get a sum. `Cref` decodes HTML character references; `WordTables`
  are the packed hash tables of both.
* `Punycode`, `Utf8` and `LabelEncoder` are the encoder of international host labels, `HostLabels`
  what it promises for labels, `UrlStates` the states of the URL scanner, and `HostNames.CkUrl` the
  scanner with its queue of host names in a buffer (`HostBuffer`), and `HostUrls` whole URLs through it.
* `Failover` splits a time budget over several servers.

Each of the program's objects is a class whose methods are proved against functions of its state
(`View()`), and the promises are lemmas about those functions. The repository's own README says that
the MIME layer is not ported; the code has it, and the model follows the code.

The lemmas named `InBytes`, `InNumbers` and `InByteValues` state what the small definitions mean in
literal bytes and numbers, so that a theorem and the machine it is about cannot be wrong together.

The main results:

* Punycode: for every sequence of code points the decoder of RFC 3492, section 6.2, takes the
  encoder's output back to exactly that sequence; a label is rewritten all or not at all, and
  exactly when an explicit condition holds (`HostLabels.TextIsRewritten`).
* Multipart: the incremental matcher agrees with the line definition of a delimiter; the slices,
  the delimiter lines and at most one unfinished delimiter tile the body in order; the walk ends
  and refines `Multipart.Run` whatever the body; and a whole multipart message, from its first header
  field on, gives the body checksum the decoded content of each part, for any header lines, for
  entities nested as deep as three boundaries allow, and for bodies that are closed or cut off
  (`MultipartText.MultipartMessage`). RFC 2046, section 5.1, lets an outer delimiter follow right behind
  an inner closing one. The code reports it exactly when a line stands in between
  (`MultipartNested.OuterIsFound`); on one body without that line it takes the part behind it for
  epilogue (`MultipartNested.AdjacentIsMissed`), and with the line it does not (`MultipartNested.ApartIsFound`).
* The same message gives the second fuzzy checksum, for each language, exactly its dictionary words of
  each entity's decoded text in order, as the header lines describe the entity, and nothing of heads,
  boundaries, preamble, epilogue and binary entities (`MultipartHashes.MultipartMessageHashes`).
* Header machine: from every reachable state and for every input it ends, keeps the nesting at three
  or less, and writes boundary bytes inside their slots only.
* Transfer decoders: round trips for every encoding. Quoted-printable depends neither on the split
  into calls nor on the output buffer. For base64 the buffer, and likewise buffers and split together,
  do not show exactly when what is behind the first pad of the input settles
  (`Base64Settles.BufferDoesNotShow`, `Base64Settles.CallsDoNotShow`): cut at its pads, every piece that a
  pad follows has whole groups of four, the last one is not three over, and every group is "BBBB".
  `Base64Padding.WrittenBeforeShows` gives inputs on which the program's own buffer shows.
* Fuzzy words: the nested loops refine a machine over single bytes, so the text may be cut anywhere;
  no language ever accounts for more bytes than were counted; plain text is hashed as exactly its
  dictionary words in order, and HTML text, made of words, tags and comments, as exactly those of the
  text without the tags and comments and with references resolved (`Fuz2Html.HtmlTextWords`).
* Whether there is a second fuzzy sum: an HTML text of one language's words, tags and comments has enough
  text exactly when there are 100 words, or bytes of tags were looked at behind their names no more than
  nine times as often as there are letters and filler (`Fuz2Sums.WordsGetTheirSum`). So words and tags
  alone do not always get one: spaces in a tag are counted and account for nothing
  (`Fuz2Sums.SpacesWithholdTheSum`).
* Host names: the queue is always the packed form of a suffix of all names captured, the panic
  about a bad buffer is never reached, and a whole URL, bare or in quotes, with or without a user name,
  whatever cuts its host name off and whichever byte ends it, captures exactly its labels
  (`HostUrls.ScanUrl`). The recogniser of "http://" does not back up: behind text it finds the
  next one exactly when the text does not end in the middle of one (`UrlStates.UrlBehindText`).
  That international labels of URLs are rewritten is false: the second byte of every multi-byte
  character ends the host name. A label that the scanner has collected is rewritten only when it is
  ASCII (`HostUrls.RewrittenWhen`), and that happens when the next label begins with a byte from 0xC0 on
  (`HostUrls.ScanWide`).
* Failover: no more than the budget is used and every server tried gets its even share; that the
  slices together stay within the budget is false in general (`Failover.SlicesExceed`). When no
  attempt ends the call, it is true exactly when each attempt but the last wants its share of the
  budget (`Failover.SlicesFitExactly`); however it ends, exactly when what the attempts before the last
  leave of their shares is no more than what the last one's share leaves of the time before it, both
  sums computed from the attempts (`Failover.SlicesFitWhen`).

## Model

| member | source | states |
|---|---|---|
| `Punycode.LowPart` | dcc/puny.go:165 | every digit index is at least the threshold and below 36, so the digit table is never read out of bounds |
| `Punycode.HighPart` | dcc/puny.go:168 | the division makes q smaller, so the loop over digits ends |
| `Punycode.ReadInvertsVarInt` | dcc/puny.go:151-172 | reading a variable-length integer back (RFC 3492, section 6.2) gives delta and leaves exactly what follows it |
| `Punycode.MinimumIsReal` | dcc/puny.go:137-145 | while h counts the code points below n and some are left, the minimum search finds one of the label's code points |
| `Punycode.DeltaBound` | dcc/puny.go:117-178 | for labels of up to 63 code points delta stays below 2^27, so unsigned arithmetic never wraps |
| `Punycode.LinkJumps` | dcc/puny.go:138-145 | the jump to the next code point keeps the link between encoder and decoder |
| `Punycode.LinkSkips` | dcc/puny.go:148-149 | passing over another code point keeps the link |
| `Punycode.LinkInserts` | dcc/puny.go:150-175 | writing one code point keeps the link |
| `Punycode.LinkMoves` | dcc/puny.go:178-179 | moving on to the next round keeps the link, and h is then the number of code points below the new n |
| `Punycode.RoundFollows` | dcc/puny.go:146-177 | over one pass of the inner loop the decoder rebuilds exactly what the encoder wrote |
| `Punycode.RoundsFollow` | dcc/puny.go:136-180 | over all rounds the decoder ends with exactly the label's code points |
| `Punycode.DecodeInvertsEncode` | dcc/puny.go:113-180 | the decoder of RFC 3492, section 6.2, inverts the encoder on every sequence of code points |
| `Punycode.EncodeInjective` | dcc/puny.go:113-180 | different sequences of code points never share an encoding |
| `Punycode.AdaptInNumbers` | dcc/puny.go:21-34 | the bias for the damping by 700 or 2 and up to three divisions by 35, in numbers |
| `Punycode.EncodesInBytes` | dcc/puny.go:113-180 | one encoding of two characters, byte for byte |
| `Utf8.ReadCodePoint` | dcc/puny.go:56-102 | a code point read inside the label ends inside it, and one read behind it is a single byte |
| `Utf8.DecodeLabel` | dcc/puny.go:51-111 | a label that is read has 1 to 63 code points |
| `Utf8.DecodeInvertsText` | dcc/puny.go:51-111 | the reader inverts RFC 3629, section 3, exactly when there are at most 63 code points and none needs an E0 or F0 lead byte |
| `Utf8.DecodedIsText` | dcc/puny.go:51-111 | an accepted label is the RFC 3629 encoding of what was read from it exactly when no C1 byte is in it |
| `Utf8.OverlongIsNotEncoded` | dcc/puny.go:60-70 | an accepted C1 lead byte gives an ASCII code point that RFC 3629 would write in one byte |
| `LabelEncoder.PunyAdapt` | dcc/puny.go:21-34 | the adaptation loop ends and gives the bias of RFC 3492, section 6.1 |
| `LabelEncoder.PunyOut` | dcc/puny.go:42-49 | a byte is appended exactly while there is room in 63 bytes, else nothing changes |
| `LabelEncoder.ReadUtf8` | dcc/puny.go:56-102 | one turn of the reading loop accepts and returns exactly what the reader function does |
| `LabelEncoder.ReadLabel` | dcc/puny.go:51-111 | the reading loop ends, stays inside the buffer, leaves the extra slot zero, and reads what the function reads |
| `LabelEncoder.PutVarInt` | dcc/puny.go:151-172 | the digits of delta are appended exactly when they fit |
| `LabelEncoder.FindMin` | dcc/puny.go:138-143 | the search over all slots, the extra one too, finds the least code point from n on |
| `LabelEncoder.InsertRound` | dcc/puny.go:146-179 | one pass writes the round's digits exactly when they fit, with delta below 2^27 at each step |
| `LabelEncoder.PutBasics` | dcc/puny.go:113-134 | the prefix, the ASCII code points and the delimiter are written exactly when they fit |
| `LabelEncoder.PutRounds` | dcc/puny.go:136-180 | the outer loop ends and writes all rounds exactly when they fit |
| `LabelEncoder.EncodeLabel` | dcc/puny.go:113-180 | the encoder finishes exactly when prefix and encoding fit in 63 bytes, and then has written both |
| `LabelEncoder.RewriteLabel` | dcc/puny.go:51-180 | reading and writing together: whether and what the label becomes |
| `HostLabels.RewrittenLabelDecodes` | dcc/puny.go:36-186 | a rewritten label is the prefix and a string that decodes to the label's code points |
| `HostLabels.RewritingIsInjective` | dcc/puny.go:36-186 | different labels in RFC 3629 form are never rewritten to the same bytes |
| `HostLabels.TextIsRewritten` | dcc/puny.go:36-186 | a label in RFC 3629 form is rewritten exactly when it is short enough, no code point in it is refused, and the result fits |
| `HostLabels.RewrittenIsPlain` | dcc/puny.go:182-185 | rewriting puts no NUL and no dot into a label, and makes no label empty |
| `HostLabels.WideIsNotRewritten` | dcc/puny.go:51-111 | a label with a byte from 0xC0 on and none from 0x80 to 0xBF is never rewritten |
| `HostLabels.AsciiIsRewritten` | dcc/puny.go:36-186 | an ASCII label becomes itself between "xn--" and a dash, exactly when that fits |
| `HostLabels.KeptIsSuffix` | dcc/fuz1.go:157-173 | the name kept after trimming is a suffix of the whole name that starts at its second-last label |
| `HostNames.CkUrl.Punyencode` | dcc/puny.go:36-186 | buffer and end become the rewritten label or stay as they were, and nothing else in the buffer changes |
| `HostNames.CkUrl.ResetDomsBuf` | dcc/fuz1.go:112-123 | the name in progress is forgotten, the queue stays |
| `HostNames.CkUrl.UrlHostSave` | dcc/fuz1.go:125-137 | a byte is appended, or the name is given up at 256 bytes with the buffer unchanged |
| `HostNames.CkUrl.TrimName` | dcc/fuz1.go:168-172 | the copy inside the buffer leaves queue, last two labels and NUL |
| `HostNames.CkUrl.UrlHostEnd` | dcc/fuz1.go:141-177 | a name in progress joins the queue, rewritten and trimmed; an empty one changes nothing |
| `HostNames.CkUrl.MakeRoom` | dcc/fuz1.go:267-284 | whole oldest names are dropped until a longest name fits, and none when it fits already |
| `HostNames.CkUrl.DropOldest` | dcc/fuz1.go:275-283 | the first NUL ends the first name, the rest moves to the front; the panic is unreachable |
| `HostBuffer.IndexByteFrom` | dcc/fuz1.go:504-511 | the first occurrence before the limit and the end of the buffer, or none |
| `HostNames.CkUrl.PunctByte` | dcc/fuz1.go:293-362 | a byte other than a host byte: what it ends, cuts off, marks or leaves pending, and that only an ending takes a name |
| `HostNames.CkUrl.HostByte` | dcc/fuz1.go:292-378 | one byte of a host name: whether it has room, what is captured, and how labels, flags and the cut-off change |
| `HostNames.CkUrl.Scan` | dcc/fuz1.go:193-394 | every state and byte: the recogniser's step, the start of a host name, a byte of it, and where skipping the rest of a URL ends |
| `HostNames.CkUrl.Step` | dcc/fuz1.go:181-192 | an input byte is held back by a character reference with the scanner untouched, or the byte it stands for is scanned |
| `HostNames.CkUrl.Abandon` | dcc/fuz1.go:456-473 | when the line loop gives up on a URL the queue and the captured names stay as they were |
| `HostUrls.ByteMeans` | dcc/fuz1.go:292-362 | in byte values: which bytes belong to a host name, cut it off, separate its labels, mark it, end a user name or end it, and when the rest of the URL is skipped |
| `HostUrls.NeverRewritten` | dcc/fuz1.go:141-150 | a label that is marked international and has come through the scanner is left as it is |
| `HostUrls.RewrittenWhen` | dcc/fuz1.go:365-376 | what a label that has come through the scanner is rewritten to: itself with a prefix and a dash exactly when it is ASCII and fits |
| `HostUrls.ScanWide` | dcc/fuz1.go:352-376 | a byte from 0xC0 on behind a dot: the label in front of the dot is rewritten, or stays, and the new one is not marked |
| `HostUrls.ScanDots` | dcc/fuz1.go:293-310 | a dot behind the last label is dropped and a second one cuts the name off: the labels alone are captured |
| `HostUrls.Limits` | dcc/fuz1.go:20-26 | the limits of names, URLs and the buffer in numbers |
| `HostUrls.ScanUrl` | dcc/fuz1.go:181-394 | a quote or none, http:// or https://, a user name or none, labels with dots, what may cut them off, and any byte that ends them: exactly the labels are captured, trimmed while names matter |
| `HostUrls.ScanUrlAndRest` | dcc/fuz1.go:181-394 | the same with a path up to the blank, quote or bracket that ends it: the scanner is idle again |
| `HostUrls.KeptInBytes` | dcc/fuz1.go:157-173 | of three labels the last two are kept while names matter |
| `UrlStates.HttpIsFound` | dcc/fuz1.go:193-287 | "http://" and "https://" lead to the start of a host name exactly from the idle and quote states |
| `UrlStates.StateTells` | dcc/fuz1.go:193-287 | the state says how much of a URL the text ends in, and that no beginning was missed |
| `UrlStates.UrlBehindText` | dcc/fuz1.go:193-287 | behind text without a URL the next one is found exactly when the text does not end in the middle of one that it began in time; an extra h before "http://" hides it |
| `UrlStates.AlwaysEnds` | dcc/fuz1.go:296-362 | no space, control byte, slash, quote or angle bracket becomes part of a host name |
| `HostLabels.FirstNul` | dcc/fuz1.go:275-277 | the first NUL of the packed queue ends its first name |
| `WordTables.LookupWord` | dcc/fuz2_tables.go:58-79 | the bucket walk ends in bounds and finds exactly the records of the bucket |
| `WordTables.HashInBytes` | dcc/fuz2_tables.go:59 | the hash of one word, in whichever of the four groups it stands |
| `WordTables.EqualGroupsCancel` | dcc/fuz2_tables.go:59 | equal groups of four bytes cancel each other |
| `WordTables.LookupIsMembership` | dcc/fuz2_tables.go:58-79 | with every word in its bucket, look-up of a zero-padded word is membership in the whole dictionary |
| `WordTables.BucketInNumbers` | dcc/fuz2_tables.go:59-60 | that word's bucket among any number of buckets |
| `WordTables.RecordsInBytes` | dcc/fuz2_tables.go:64-78 | the records of one bucket, byte for byte, with and without a value, up to a zero length |
| `WordTables.LookupCref` | dcc/cref_lookup.go:10-34 | the bucket walk ends in bounds with the value of the first record for the name, or 0 |
| `WordTables.CrefIsMap` | dcc/cref_lookup.go:10-34 | with every name in its bucket, look-up is the table read as a map |
| `Cref.CkCref.Step` | dcc/cref.go:41-113 | one byte of a reference: state, result and whether the byte is used, as the function says |
| `Cref.StepKeepsValid` | dcc/cref.go:49-111 | a name in progress is always zero behind its length and never longer than its buffer |
| `Cref.NumberInBytes` | dcc/cref.go:61-98 | "&#233;" and "&#xE9;" deliver the byte 0xE9 |
| `Cref.NoReferenceInBytes` | dcc/cref.go:49-73 | behind an ampersand a byte that is no letter and no number sign is used up with no result; an ampersand and a number sign without a digit or an x behind them give the number sign and keep the byte |
| `Cref.DecimalReference` | dcc/cref.go:74-84 | a decimal reference delivers its number, cut off at 255, and uses up only a semicolon |
| `Cref.HexReference` | dcc/cref.go:61-98 | a hexadecimal reference, its x and its digits in either case, delivers its number, cut off at 255 |
| `Cref.NamedReference` | dcc/cref.go:100-110 | a named reference of any length delivers what the table says about its first 16 bytes |
| `QuotedPrintable.QpRunSplits` | dcc/mime.go:347-434 | any split of the input gives the same output and final state |
| `QuotedPrintable.RunIsText` | dcc/mime.go:347-434 | on every input, output and bytes held back are what decoding with lookahead yields, broken escapes included |
| `QuotedPrintable.QpRoundTrip` | dcc/mime.go:347-434 | literal bytes, escapes in either case and soft breaks decode to what they encode and leave the decoder idle (RFC 2045, section 6.7) |
| `QuotedPrintable.InByteValues` | dcc/mime.go:347-434 | which bytes are hexadecimal digits, and their values |
| `QuotedPrintable.TextInBytes` | dcc/mime.go:347-434 | one text with escapes in both cases and a soft break, byte for byte |
| `QuotedPrintable.QpDecoder.QpStep` | dcc/mime.go:355-425 | one turn of the decoder: a pushed-back byte is written, or an input byte is used |
| `QuotedPrintable.QpDecoder.QpDecode` | dcc/mime.go:347-434 | for any buffer, what is written and what the rest yields is the output of the whole; without progress the pushed-back bytes get fewer |
| `Base64.Take` | dcc/mime.go:478-504 | one byte that counts keeps the quantum within 32 bits and fewer than four sextets waiting |
| `Base64.InByteValues` | dcc/mime.go:436-453 | the alphabet of RFC 4648, section 4, and that every other byte is passed over |
| `Base64.EncodesInBytes` | dcc/mime.go:436-453 | "Man" and "Ma" in base64 |
| `Base64Text.ReadPush` | dcc/mime.go:493-501 | a sextet shifted into the quantum joins those that wait, and every fourth writes the three bytes of its group |
| `Base64Settles.ReadShift` | dcc/mime.go:478-501 | text behind a pad reads alike with and without the low bits a pad leaves in the quantum, exactly when it settles |
| `Base64Settles.FillReads` | dcc/mime.go:461-507 | one call writes the front of what the input reads as and stands where the rest follows, for settled input in any buffer, and for any input when all pads or none stop the call |
| `Base64Settles.BufferDoesNotShow` | dcc/mime.go:461-507 | from any state the size of the output buffer does not show in what is written exactly when the input settles |
| `Base64Settles.CallsDoNotShow` | dcc/mime.go:436-507 | from any state neither the cut of the input into calls nor the size of each call's buffer shows in what is written, exactly when the input settles |
| `Base64Settles.TextSplits` | dcc/mime.go:461-507 | input that settles, or is under a third of the buffer, may be decoded in parts |
| `Base64Settles.B64RoundTrip` | dcc/mime.go:436-507 | the encoding of RFC 4648, section 4, with any other bytes mixed in, settles and decodes to exactly the bytes encoded through any buffer |
| `Base64Padding.SecondIsDecoded` | dcc/mime.go:478-492 | behind a pad that finds the buffer full a second encoding is decoded too |
| `Base64Padding.WrittenBeforeShows` | dcc/mime.go:478-492 | with the program's buffer a second encoding is decoded behind 1022 bytes, and is not behind two |
| `Base64.B64Decoder.B64Decode` | dcc/mime.go:461-507 | every write is in bounds for buffers of three bytes or more, and the call does what the function says |
| `BodyFilter.BodyRunSplits` | dcc/body.go:41-73 | any split of the input gives the same output and state |
| `BodyFilter.BodyRunIsText` | dcc/body.go:41-73 | on every input, output and held-back bytes are the body's lines with ">From" unescaped and space, tab, CR, LF and "=" dropped |
| `BodyFilter.SumInBytes` | dcc/body.go:41-73 | of every body exactly the bytes other than space, tab, LF, CR and "=" are summed, in order, behind the removal of the ">" in front of "From" |
| `BodyFilter.BodyState.Emit` | dcc/body.go:30-37 | batching changes neither the bytes accepted nor their order, and the batch stays below 1024 bytes |
| `BodyFilter.BodyState.Body0` | dcc/body.go:41-73 | the loop filters its input, whatever came before |
| `BodyFilter.BodyState.Final` | dcc/body.go:77-85 | the sum and the bytes held back are the filtered text of all input; it counts from 30 bytes on |
| `Fuz2Machine.Look` | dcc/fuz2.go:96-221 | a look that does not use its byte goes down in rank, so every byte is used up |
| `Fuz2Machine.FuzRunSplits` | dcc/fuz2.go:93-222 | text may be cut anywhere: words, tags, comments and references carry over |
| `Fuz2Machine.RunKeeps` | dcc/fuz2.go:78-222 | for every language, words, filler, open word and open tag never exceed the bytes counted |
| `Fuz2Words.PlainTextWords` | dcc/fuz2.go:78-136 | of plain text each language's hash gets exactly its dictionary words in order, and the counts are theirs |
| `Fuz2Words.WordInBytes` | dcc/fuz2.go:109-127 | a word is 3 to 16 bytes that fold to 0x61 or more, and 0x20 separates |
| `Fuz2Plain.TaglessTextWords` | dcc/fuz2.go:93-168 | the same for plain text with '<' in it, as long as no html tag stands there: a run with a '<' is no word |
| `Fuz2Words.WordsAreFound` | dcc/fuz2.go:109-127 | every maximal run of 3 to 16 letters between spaces is one of the words |
| `Fuz2Tags.GtEndsTag` | dcc/fuz2.go:170-187 | a '>' ends its tag exactly when it is not right behind an '&', and does not interrupt a reference to '>' |
| `Fuz2Tags.TagIsTransparent` | dcc/fuz2.go:129-198 | a tag in HTML text, references in it included, leaves the word it stands in, and every language, as they were, and counts as filler its name, the marks it resolves to and two brackets |
| `Fuz2Tags.CommentIsTransparent` | dcc/fuz2.go:129-219 | the same for a comment, which ends at its first '>' |
| `Fuz2Html.TagsDoNotShow` | dcc/fuz2.go:93-222 | HTML text of words, tags and comments leaves word and languages as its words alone leave them in plain text, references resolved |
| `Fuz2Html.HtmlTextWords` | dcc/fuz2.go:78-222 | each language's hash gets exactly its dictionary words of the HTML text without tags and comments, in order, and the counts are theirs |
| `Fuz2Tags.NameInBytes` | dcc/fuz2.go:139-142 | which bytes may stand where in a tag's name, in byte values |
| `Fuz2Tags.HtmlInBytes` | dcc/fuz2.go:139-151 | which four bytes spell the name html |
| `Fuz2Tags.HtmlTagInBytes` | dcc/fuz2.go:138-151 | "<html" in any case turns plain text into HTML |
| `Fuz2Tags.CommentInBytes` | dcc/fuz2.go:161-219 | "<!-- " up to the next '>' leaves word and languages as they were |
| `Fuz2Tags.TagInBytes` | dcc/fuz2.go:138-198 | a tag of letters and digits, with or without a slash and attributes, leaves word and languages as they were |
| `Fuz2Tags.FailsafeInNumbers` | dcc/fuz2.go:189-217 | the 2001st mark of a tag or comment spoils the word, and no earlier one |
| `Fuz2Texts.EntitySettles` | dcc/fuz2.go:93-222 | any text as its entity is described, from between two words and with a line end behind it: each language has gained its words, and no word, tag or reference is open |
| `Fuz2Sums.HtmlCounts` | dcc/fuz2.go:93-222 | the bytes counted and the filler of a whole HTML text |
| `Fuz2Sums.TenthOrManyWords` | dcc/fuz2.go:234-236 | letters and filler count alike, a tenth of the bytes is asked for, and 100 words suffice |
| `Fuz2Sums.HostsStandIn` | dcc/fuz2.go:237-238 | eight words are needed, and a host name stands in for four |
| `Fuz2Sums.WordsGetTheirSum` | dcc/fuz2.go:226-236 | of an HTML text of one language's words the best language has hashed all, and whether there is enough text |
| `Fuz2Sums.BareTagsAreNotLookedAt` | dcc/fuz2.go:152-160 | tags without attributes never withhold a sum |
| `Fuz2Sums.SpacesWithholdTheSum` | dcc/fuz2.go:170-198 | how many spaces in one tag withhold the sum of how many letters |
| `Fuz2Tags.TagInText` | dcc/fuz2.go:138-168 | in other text the tag "html" in any case makes it HTML, and any other name spoils the word it stands in |
| `Fuz2.Fuz2State.CreditOne` | dcc/fuz2.go:79-90 | one language gets the word when its character set fits and its dictionary holds it |
| `Fuz2.Fuz2State.AddWord` | dcc/fuz2.go:78-91 | all four languages, each by its own dictionary |
| `Fuz2.Fuz2State.WordTurn` | dcc/fuz2.go:98-136 | one turn of the word loop is one look of the machine |
| `Fuz2.Fuz2State.TagTurn` | dcc/fuz2.go:138-168 | one turn at the start of a tag, which may find out that the text is HTML |
| `Fuz2.Fuz2State.SkipTurn` | dcc/fuz2.go:170-198 | one turn of the loop over a tag |
| `Fuz2.Fuz2State.CommentTurn` | dcc/fuz2.go:200-219 | one turn of the loop over a comment |
| `Fuz2.Fuz2State.WordLoop` | dcc/fuz2.go:98-136 | the word loop keeps what the whole text yields and makes progress despite one-byte rewinds |
| `Fuz2.Fuz2State.Fuz2` | dcc/fuz2.go:93-222 | the nested loops end and refine the machine over single bytes, with all invariants |
| `Fuz2.Fuz2State.Final` | dcc/fuz2.go:226-250 | the first language with the most words, exactly when its sum is given, and that the queued host names stand in for missing words |
| `Fuz2.QueuedBytes` | dcc/fuz2.go:238-241 | what the sum takes from the URL scanner's buffer are the queued names with a NUL between them, without the last NUL |
| `MimeHeader.CompareLen` | dcc/mime.go:30-36 | a compare never reads past its target or its input, even when the position is past the target |
| `MimeHeader.MatchStepMoves` | dcc/mime.go:25-49 | a match fails in place, uses up the input, or moves to its next state |
| `MimeSteps.SkipParamLeaves` | dcc/mime.go:74-90 | a parameter is skipped to the first white space, which is left to read, or through the first semicolon |
| `MimeSteps.SpanWSLeaves` | dcc/mime.go:60-72 | exactly the leading white space is dropped |
| `MimeSteps.OthersArePassed` | dcc/mime.go:197-208 | any parameters in front of the one looked for are passed over, whatever separates them |
| `MimeHeader.BndValueKeeps` | dcc/mime.go:267-299 | boundary bytes go to positions 2 to 93 of one slot below the third, and the nesting grows by at most one |
| `MimeHeader.BndKeeps` | dcc/mime.go:254-265 | opening a slot keeps the nesting below three and every slot in shape |
| `MimeHeader.PlainStepMoves` | dcc/mime.go:116-252 | away from the slots a step only moves, and toward a boundary only while a slot is free |
| `MimeHeader.StepKeeps` | dcc/mime.go:116-301 | every step from every reachable state keeps the bounds and ends the call, uses input, or goes down in rank |
| `MimeHeader.HdrRun` | dcc/mime.go:116-302 | the loop ends for every input and keeps the invariant |
| `MimeHeader.ParseHdr` | dcc/mime.go:93-303 | the same with the test for a blank line in front |
| `MimeHeader.FieldRun` | dcc/mime.go:11-22 | a whole header field keeps the invariant with at most one level open |
| `HeaderParser.HdrParser.MhMatch` | dcc/mime.go:25-49 | one incremental match, field by field |
| `HeaderParser.HdrParser.SpanSpace` | dcc/mime.go:60-72 | the loop drops exactly the leading white space |
| `HeaderParser.HdrParser.SkipParameter` | dcc/mime.go:74-90 | the loop stops at white space or behind a semicolon |
| `HeaderParser.HdrParser.IsoXTurn` | dcc/mime.go:216-238 | the digits of a character set's number, and the set chosen |
| `HeaderParser.HdrParser.BndTurn` | dcc/mime.go:254-265 | "boundary=" opens a slot, the first one in message headers |
| `HeaderParser.HdrParser.BndValueTurn` | dcc/mime.go:267-299 | the loop over a boundary's bytes |
| `HeaderParser.HdrParser.Turn` | dcc/mime.go:116-301 | one turn of the switch is one step of the machine, with its effect on the entity |
| `HeaderParser.HdrParser.ParseMimeHdr` | dcc/mime.go:93-303 | the whole parser is the function, and ends |
| `HeaderParser.HdrParser.ParseField` | dcc/mime.go:11-16 | a header field and the line end given when it still waits |
| `Bytes.InByteValues` | dcc/header.go:9-16 | upper, lower, digit, white and the fold to lower case, by characters |
| `FieldTexts.FoldsAlike` | dcc/mime.go:25-58 | two bytes match exactly when they are equal or one letter in two cases |
| `FieldTexts.CodingInBytes` | dcc/mime.go:121-163 | "Content-Transfer-Encoding:" and "base64" or "quoted-printable", any letter in either case |
| `FieldTexts.TextInBytes` | dcc/mime.go:165-238 | "Content-Type:", "text" or "text/html", and an 8859 set, any letter in either case |
| `FieldTexts.MultipartInBytes` | dcc/mime.go:165-299 | "Content-Type:", "multipart" and a boundary, quoted or not, any letter in either case |
| `FieldTexts.BinaryInBytes` | dcc/mime.go:168-185 | a type that begins with neither t nor m, in either case, is binary |
| `MimeFields.EncodingField` | dcc/mime.go:121-163 | a Content-Transfer-Encoding field in any case sets the encoding it names and nothing else |
| `MimeTypes.TextField` | dcc/mime.go:165-238 | a text field in any case sets plain text, or HTML when it says so, and the character set it names, wherever among its parameters; no set, or one outside the 8859 family, changes nothing |
| `MimeTypes.ReadsNumber` | dcc/mime.go:216-238 | a character set's number picks 8859-2 exactly when it is 2 and properly ended, else 8859-1 |
| `MimeTypes.NumberTooLarge` | dcc/mime.go:233-237 | a number above 99 leaves the character set alone |
| `MimeTypes.OtherField` | dcc/mime.go:168-185 | every type that starts with neither t nor m is binary |
| `MimeTypes.OtherTypeOpensNone` | dcc/mime.go:168-238 | a message header field of a type that does not begin with m leaves every boundary as it is, whatever its parameters |
| `MimeFields.ReadsValue` | dcc/mime.go:267-299 | a boundary value, whatever ends it, is taken without quotes and CRs exactly when with its dashes it is shorter than 94 |
| `MimeFields.ValueSplits` | dcc/mime.go:267-299 | a boundary value may come in two pieces |
| `MimeFields.MultipartField` | dcc/mime.go:165-299 | a multipart field in a body opens one more level whose slot holds the dashes and the value, wherever among the parameters the boundary stands |
| `MimeFields.MessageField` | dcc/mime.go:11-22 | a multipart field in the message header opens exactly one level, whatever was open before and whatever other parameters it has |
| `HeaderLines.LineAlike` | dcc/mime.go:93-303 | what a header line says and opens depends on the line and the nesting, not on what the slots hold |
| `HeaderLines.RunLeavesSlots` | dcc/mime.go:116-302 | header lines leave the boundaries that are open alone and close none |
| `Boundaries.MatchInBounds` | dcc/mime_multipart.go:56-131 | real progress stays below the mark of a missed boundary |
| `Boundaries.DelimiterInBytes` | dcc/mime_multipart.go:81-138 | a boundary, two dashes or none, any spaces, tabs and carriage returns, and a line feed are a delimiter of exactly that length |
| `Boundaries.NoDelimiterInBytes` | dcc/mime_multipart.go:81-131 | with any other byte, or a single dash, they are none |
| `Boundaries.DelimiterLines` | dcc/mime_multipart.go:54-131 | a line is a delimiter exactly when the matcher finds it, and a text is the start of one exactly when it waits |
| `Boundaries.DelimiterIsLine` | dcc/mime_multipart.go:109-138 | a delimiter ends with its line |
| `Multipart.ScanFinds` | dcc/mime_multipart.go:54-154 | a tested line is a delimiter of level i exactly by the line definition, the outermost level first; with none and nothing waiting no match is left |
| `Multipart.ScanKeeps` | dcc/mime_multipart.go:54-131 | the count of matches is at every moment the number of boundaries not marked missed |
| `Multipart.TakeLineKeeps` | dcc/mime_multipart.go:21-52 | a line that is not tried keeps the invariant and closes no level |
| `Multipart.TestKeeps` | dcc/mime_multipart.go:54-154 | a line that is tried keeps the invariant |
| `Multipart.RunKeepsMatches` | dcc/mime.go:93-303 | header lines in a body do not touch the count of matches |
| `Multipart.Tiling` | dcc/mime_multipart.go:15-160 | slices, delimiter lines and at most one unfinished delimiter at the end make up the body, in order, without a gap |
| `Multipart.FieldIsReady` | dcc/mime.go:11-22 | behind any header fields at most one boundary is open and not yet tried |
| `MultipartParts.TextLines` | dcc/mime_multipart.go:21-52 | any number of lines that are no delimiters join the text |
| `MultipartParts.DelimiterTurn` | dcc/mime_multipart.go:133-153 | a delimiter of level i flushes the text, leaves i or i + 1 levels, and the line behind it is not tried |
| `MultipartParts.BlankTurn` | dcc/mime_multipart.go:31-39 | the blank line behind headers sums them and starts the text |
| `MultipartParts.HeaderTurns` | dcc/mime_multipart.go:21-52 | any header lines behind a delimiter take effect line by line, the first without being tried as a delimiter |
| `MultipartParts.CodingIsRead` | dcc/mime.go:121-163 | a transfer encoding field as a header line sets its encoding and opens nothing |
| `MultipartParts.OtherLineIsRead` | dcc/mime.go:121-137 | a field that does not begin with "Content-T" says nothing |
| `MultipartTree.FieldLineOpens` | dcc/mime.go:165-299 | a multipart field as a header line opens its boundary inside up to two others |
| `MultipartTree.FoldedFieldOpens` | dcc/mime.go:93-115 | the same field folded, with its boundary on a second line that begins with a blank or a tab, opens it as well |
| `MultipartTree.ClosingHidesNext` | dcc/mime_multipart.go:21-48 | the line right behind a closing delimiter joins the epilogue, even when it is a delimiter of an outer boundary |
| `MultipartNested.OuterIsFound` | dcc/mime_multipart.go:21-153 | behind a closing delimiter, the epilogue and then the delimiter of the boundary around it are reported exactly when the epilogue has a line; without one the delimiter begins the epilogue's text |
| `MultipartNested.AdjacentIsMissed` | dcc/mime_multipart.go:21-153 | a nested body whose closing delimiter an outer one follows at once: what the walk reports, the second part being epilogue |
| `MultipartNested.ApartIsFound` | dcc/mime_multipart.go:21-153 | the same body with an empty line in between: the second part is a part |
| `MultipartTree.PartsAreRead` | dcc/mime_multipart.go:9-161 | entities within entities, each with any header lines, up to their closing delimiter or to where an outer one or the end cuts them off |
| `MultipartTree.BodyIsRead` | dcc/mime_multipart.go:9-161 | a body of preamble, parts and epilogue, or one that the end cuts off, is read into exactly these, with nothing left over |
| `MultipartBytes.BodyIsWalked` | dcc/mime_multipart.go:9-161 | a CR LF body with one base64 part whose header is in mixed case: both delimiters, the header and the text are found |
| `MultipartBytes.BodyIsDecoded` | dcc/mime.go:307-343 | the body checksum gets its boundaries, its header and the two bytes encoded |
| `MultipartText.PartDecodes` | dcc/mime.go:307-343 | an entity adds its head as it stands and its body decoded, in the transfer encoding its header lines leave |
| `MultipartText.PartsDecode` | dcc/mime.go:307-343 | entities in a row add these with the boundaries between them, and each starts as plain text again |
| `MultipartText.MessageDecodes` | dcc/mime_multipart.go:9-161 | the body checksum of a multipart body is fed preamble, boundaries, heads, decoded contents and epilogue |
| `MultipartHashes.OutsideWords` | dcc/mime.go:308-316 | outside of a text the second fuzzy checksum gets a line end, which closes the word that was open |
| `MultipartHashes.OutsideBytesDoNotShow` | dcc/mime.go:308-316 | whatever the bytes there are |
| `MultipartHashes.PartHashes` | dcc/mime.go:307-343 | an entity adds for each language the words of its decoded text |
| `MultipartHashes.PartsHash` | dcc/mime.go:307-343 | entities in a row add these in order, and behind a boundary no word is open |
| `MultipartHashes.MessageHashes` | dcc/cks.go:146-156 | of a multipart body every language has hashed exactly its words of each decoded text when the message ends |
| `MultipartHashes.MultipartMessageHashes` | dcc/message.go:110-113 | the same from the first header field of the message on |
| `MultipartHashes.SinglePart` | dcc/mime.go:511-517 | a body without boundaries: both checksums get it decoded |
| `MimeFields.OtherFieldOpensNone` | dcc/mime.go:11-22 | a header field that is no Content-Type leaves every boundary as it is |
| `MultipartText.HeaderOpens` | dcc/message.go:110-113 | any fields, the one that names the boundary, and then fields that are no Content-Type or of a type not beginning with m: exactly that boundary is open |
| `MultipartText.MultipartMessage` | dcc/message.go:110-113 | the same from the first header field of the message on |
| `Pipeline.FeedSplits` | dcc/mime.go:335-341 | decoded chunks may be cut anywhere |
| `Pipeline.RunStaysText` | dcc/fuz2.go:149-151 | the fuzzy checksum may find HTML in a text but never makes it binary |
| `Pipeline.PartsJoin` | dcc/mime.go:307-343 | the text of an entity may be summed in parts, with the same checksums; base64 text when it settles or is short |
| `Pipeline.Base64Entity` | dcc/mime.go:307-343 | an entity declared as base64 gives the body checksum exactly the bytes that were encoded |
| `Pipeline.QpEntity` | dcc/mime.go:307-343 | the same for quoted-printable |
| `Pipeline.PlayKeeps` | dcc/mime.go:307-343 | every event keeps the decoders' and the checksum's invariants |
| `DecodeSum.Decoders.QpTurn` | dcc/mime.go:323-326 | one buffer of quoted-printable output: what the whole input yields stays the same |
| `DecodeSum.Decoders.B64Turn` | dcc/mime.go:327-330 | the same for base64, which always uses input |
| `DecodeSum.Decoders.DecodeText` | dcc/mime.go:318-342 | the loop ends although pushed-back bytes use no input, and does what the function says |
| `DecodeSum.Decoders.DecodeSum` | dcc/mime.go:307-343 | a part of the message has exactly its effect on decoders, entity and checksums |
| `Entities.Defaults` | dcc/cks.go:133-141 | an entity starts as plain text in the first character set, not encoded |
| `Entities.EachSetsItsOwn` | dcc/mime.go:93-210 | type, character set and encoding are set each by its own effect, in whichever order |
| `DecodeSum.Decoders.Restart` | dcc/cks.go:133-141 | a new entity starts as plain text with nothing left in the decoders |
| `MimeMessage.Cks.constructor` | dcc/cks.go:116-130 | a fresh context is valid and ready for header fields |
| `MimeMessage.Cks.MatchText` | dcc/mime_multipart.go:56-131 | one boundary against the text, resumed at any progress |
| `MimeMessage.Cks.TryBoundaries` | dcc/mime_multipart.go:54-131 | the loop over the active boundaries is the scan, in bounds |
| `MimeMessage.Cks.TakeBodyLine` | dcc/mime_multipart.go:21-48 | a line that is not tried: header effects, flush at the blank line, and the next line's tests |
| `MimeMessage.Cks.PassDelimiter` | dcc/mime_multipart.go:133-153 | a delimiter flushes the text, sums its boundary and starts a new entity |
| `MimeMessage.Cks.LineTurn` | dcc/mime_multipart.go:21-52 | one line taken keeps what the whole body yields |
| `MimeMessage.Cks.TestTurn` | dcc/mime_multipart.go:54-155 | one line tried keeps what the whole body yields and makes progress |
| `MimeMessage.Cks.CkBodyMultipart` | dcc/mime_multipart.go:9-161 | the loop ends for every body and every valid state, and refines the walk |
| `MimeMessage.Cks.CkBody` | dcc/mime.go:511-517 | the same with the short path when no boundary is open |
| `MimeMessage.Cks.CkMimeHdr` | dcc/mime.go:11-22 | a header field's effect on parser, entity and part state |
| `MimeMessage.Cks.ReadFields` | dcc/message.go:110-113 | any header fields leave the context ready for the body |
| `MimeMessage.Cks.ComputeBody` | dcc/cks.go:146-156 | the body sum and the second fuzzy sum of a message as functions of its body, what its headers left, and the host names queued |
| `Failover.EvenShare` | dcc/client.go:245-251 | every server tried gets at least the budget divided by the number of servers |
| `Failover.FitsBudget` | dcc/client.go:245-251 | all attempts together take no more time than the budget |
| `Failover.NoneSkipped` | dcc/client.go:245-262 | with any time at all the tries end only by an answer, a cancelled caller, or the last server |
| `Failover.SlicesAndSpared` | dcc/client.go:248-251 | however the call ends, the slices and what the last one spared are the budget and what earlier attempts left over; so they fit exactly when no more was left over than spared |
| `Failover.FullSlices` | dcc/client.go:248-251 | the attempts before the last use up their slices exactly when attempt k wants at least an n-th of the budget and k |
| `Failover.SlicesFitExactly` | dcc/client.go:248-251 | when no attempt ends the call, the slices fit into the budget exactly when each attempt but the last wants its share |
| `Failover.SlicesFit` | dcc/client.go:248-251 | in any call, attempts before the last that want their shares leave slices that fit |
| `Failover.SlicesFitWhen` | dcc/client.go:244-262 | in any call, early ending ones included, the slices fit exactly when two sums computed from attempts and budget compare |
| `Failover.SlicesExceed` | dcc/client.go:248-251 | two servers and an attempt that fails at once: the slices exceed the budget |
| `Failover.SparedCovers` | dcc/client.go:248-251 | an early answer: the slices fit although an attempt before it left time over |
| `Failover.Send` | dcc/client.go:244-267 | the loop makes exactly these tries and never passes the deadline |

## Left out

- The line buffer of the first fuzzy checksum (`dcc/fuz1.go`: `fuz1`, `addSum`, `dearSucker`, `final`, the fields `buf`, `cp`, `eol`, and the positions `start`, `sld`, `tld` into it): not modelled; the URL machine is modelled from its bytes and host-name buffer alone, and the loop may abandon a URL at any time. So `decodeSum` here feeds the body and the second fuzzy checksum only.
- MD5: a hash is the byte string it was given.
- The dictionaries, the character-reference table, the folding tables and the blob decoder: arbitrary tables of the right shape; where a property needs more (words in the bucket of their hash, LF folding to space), it is stated as a condition.
- The dictionary word count that the URL machine reads is a parameter, and the second fuzzy checksum gets the URL machine at the end as it may then stand.
- MimeMessage.Cks.ComputeBody: does not give the first fuzzy sum, because that checksum's line buffer is not modelled.
- DecodeSum.Decoders.DecodeSum: does not feed the first fuzzy checksum, for the same reason.
- Splitting a message into header fields and body, unfolding, the other header checksums (`str2ck`), the server protocol, networking, caches, the command-line tools and the HTTP server: input and output, or fixed layouts.
- Unsigned and 64-bit arithmetic of the label encoder is on natural numbers; `Punycode.DeltaBound` is the reason why it does not wrap. The 32-bit quantum of the base64 decoder wraps as in the program.
- Bit tests are written as ranges and shifts as division and multiplication.
- The decoder of RFC 3492, section 6.2, is over unbounded integers, so its overflow failures do not occur.
- Read-only slices are sequences, and a boundary slot is a value in an array of slots, its bytes a sequence inside it; the fields of `cks` are spread over three objects (`HdrParser`, `Decoders`, `Cks`).
- Resuming a multipart walk in a second call: the program calls it once for a whole body, and the walk is stated for that. `MimeMessage.Cks.MatchText` alone covers resumed progress.
- MultipartTree.PartsAreRead: an entity's header does not start with a continuation line, and of two boundaries opened by one header only the first delimits; other bodies are covered by the refinement and the tiling alone. A nested body may have no epilogue only where the text ends: in front of an outer delimiter the code reads none, and such text is covered as the code reads it, with that delimiter as the epilogue's first line.
- MultipartTree.BodyIsRead: the same; text lines, but those of the last epilogue, end in a line feed.
- MultipartText.PartDecodes: the same, over the entities so read.
- MultipartText.MessageDecodes: the same.
- MultipartText.HeaderOpens: a later Content-Type field of a type that begins with m is left out; a multipart one opens its own boundary instead.
- MultipartText.MultipartMessage: the same two.
- Base64Settles.FillReads: does not cover input that does not settle in a buffer that some pads find full and others do not; what it is decoded to depends on the buffer.
- Base64Settles.TextSplits: input that neither settles nor is short; the exact condition is over all buffers together, not for one of them.
- Pipeline.PartsJoin: the same for base64.
- HostUrls.ScanUrl: a URL whose name ends in dots, or whose label behind a dot begins with a byte from 0xC0 on, is not stated from its scheme on; `HostUrls.ScanDots` and `HostUrls.ScanWide` state these from the name's last label.
- MultipartHashes.MessageHashes: plain text with an html tag in it, and HTML text other than words, tags and comments, is covered by the refinement alone.
- Fuz2Html.HtmlTextWords: text in which a '<' begins no tag, a tag reaches the failsafe of 2000 bytes, or a tag cuts a reference off, is covered by the refinement alone.
- Failover.SlicesFit: one direction, on simpler conditions; `Failover.SlicesFitWhen` has both.
- Queries raced over several servers, and the real clock: only the sequential failover on an idealised clock that moves inside attempts.
- Failover.FitsBudget: states the bound on the time used, because the bound on the sum of the slices is false in general; see `Failover.SlicesFitExactly`.
