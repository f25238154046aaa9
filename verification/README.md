# A verified model of mailgun-relay

mailgun-relay accepts Mailgun-style HTTP requests and submits the messages over SMTP. Its Rust half
writes by hand what usually comes from libraries: a form parser, an address parser and printer, MIME
construction, an SMTP client, a reader of YAML events, a calendar and number parsers. This project models
those parts in Dafny and proves what they are for. `dafny verify dfyconfig.toml` checks everything.

How it is written:

- Each program part that changes state step by step is a method (or a class with methods) with the
  loops of the source, proved equal to a specification function; the properties are lemmas about that
  function, for all inputs or over all runs.
- Bytes are a newtype over 0..255. Text is `string`; where the source works on latin-1 or on the bytes
  of UTF-8 text, a char stands for one byte.
- What the model cannot see is a parameter: the charset decoder (the form parser's two are in `Charsets`),
  the domain rules, the resolver of
  plain YAML scalars, the UTF-8 check, the SMTP peer (any function from the conversation so far to an
  outcome), the rule that refuses upload filenames, and the scheduler.

The modules, by area:

- **Form bodies.** `FormSpec`, `FormParser`, `FormPrefix`, `FormDelimiter`, `FormFraming`,
  `FormDisposition`, `FormSwallowed`, `FormPrinter`, `FormRoundTrip`, `FormExact`, `Charsets` for multipart
  bodies (section 4 of RFC 7578 and section 5.1.1 of RFC 2046); `ParseParam` and `OptionsHeader` for header
  parameters; `Percent` and `Urlencoded` for URL-encoded bodies.
- **Form fields.** `MessageForm`, `RouteForm`, `FormLaws`.
- **Addresses.** `Address`, `AddressLists`, `AddressPrinter`, `AddressReadBack`, `AddressRoundTrip`,
  `AddressFixpoint`, `AddressHeader`, `CollapsedWords`, `AddressWritten` (section 3.4 of RFC 5322).
- **Messages.** `Base64` (section 4 of RFC 4648), `EncodedWords`, `WordSplitting`, `WordPieces`,
  `WordReadBack`, `WordForwarding`, `LongStarts`, `ForwardedWords`, `LongWordMade` (section 2 of RFC 2047),
  `TextBody`, `MimeTree`, `MimeBuild`, `MimeShape`.
- **Submission.** `SmtpClient`, `SmtpProtocol`, `SmtpSink` (sections 3.3 and 4.2 of RFC 5321).
- **Service.** `Lifecycle`, `LifecycleRuns`, `LifecycleProgress`, `Yaml`, `YamlTree`, `YamlScope`,
  `Calendar`, `IntParse`.
- **Shared.** `Wrappers`, `Text`, `Sequences`.

Where the code differs from what one may expect of it:

- A multipart name arrives exactly only if it holds no quote, CR, LF or doubled backslash. The name of a file
  must also not end in a backslash, because the parser then reads on into the file name, and its file name
  must not look like a Windows path (`FormExact.ArrivesExactly`). This holds for both charsets of the parser.
- "One record per request" holds while LOG_LEVEL is at most INFO and the record was created; above INFO the
  request records are quiet, and a panic before the record is created leaves none
  (`LifecycleRuns.EveryRun`, `AcceptedRun`, `EarlyPanicRun`).
- Splitting a long encoded word can make another long one with the text behind it, and dropping one without
  bytes can join one; the received value tells when (`ForwardedWords.NoLongWordLeft`,
  `LongWordMade.LongWordIsMade`).
- A message that the server holds can be reported as failed, and may then be sent again
  (`SmtpSink.HeldMeansReported`).
- Writing and parsing an address list keeps an unquoted display name exactly only if it has no TAB, no space
  at an end and no two spaces together (`AddressWritten.WrittenExactly`).
- Normalising an empty text gives one empty line where it had none (`TextBody.NormalizedKeepsLines`).
- A log stamp passes the secrets reader's own timestamp check up to the year 9999 and no longer
  (`Calendar.StampIsValid`).

The multipart search never skips a true delimiter of a request: a boundary comes from a header value, which
holds no CR, and for any other delimiter `FormDelimiter.NeverSkipsExactly` says exactly when it could.

## Model

| member | source | states |
|---|---|---|
| `ParseParam.SegmentEndUnique` | rust/src/form.rs:262-325 | the segment end, the first `;` with an even number of bare quotes before it or the end of the text, is unique, so the declarative definition decides the loop's result |
| `ParseParam.Judge` | rust/src/form.rs:293-303 | what the loop's running difference of two counts means: the bare quotes since the segment's start; even ends the segment, odd leads to the swapped state |
| `ParseParam.SwapBack` | rust/src/form.rs:293-303 | the round after a swap of the two indices counts nothing and restores their order |
| `ParseParam.FindSegmentEnd` | rust/src/form.rs:291-306 | the swapping loop terminates on every text and stops at the first `;` at even quote parity, or at the end of the text |
| `ParseParam.ParseParam` | rust/src/form.rs:262-325 | the whole loop returns the trimmed, key-lowered parameters of exactly those segments |
| `ParseParam.SegmentsStep` | rust/src/form.rs:262-325 | a text splits into its first segment and the segments of what is behind the segment's end |
| `OptionsHeader.ReadOptionsHeader` | rust/src/form.rs:217-250 | the essence and the parameters in order, unquoted, with the file name reduced to its last path component |
| `FormSpec.OccursMeaning` | rust/src/form.rs:334-340 | the search's notion of an occurrence is equality with the slice, byte by byte |
| `FormParser.ReadOpening` | rust/src/form.rs:365-384 | the bytes up to the first part, with every truncation and error branch |
| `FormParser.ReadField` | rust/src/form.rs:406-445 | one header line with its size limit, token check and truncation rules |
| `FormParser.ReadHeaders` | rust/src/form.rs:386-446 | the headers of a part: the last Content-Disposition, the first Content-Type, the count limit |
| `FormParser.FindPartEnd` | rust/src/form.rs:471-485 | the delimiter search with its resumed position: where the part ends and whether it is the last one |
| `FormParser.BeginPart` | rust/src/form.rs:448-467 | name, file name, counters and limits of a part, in the order of the checks |
| `FormParser.Multipart` | rust/src/form.rs:349-506 | the three nested loops terminate, stay in bounds and return the items of all finished parts or the first error |
| `FormPrefix.PrefixMonotone` | rust/src/form.rs:349-506 | for every body and cut: an error on the prefix is the same error on the whole body, and accepted items of the prefix are a prefix of the body's items |
| `FormPrefix.TruncationAccepted` | rust/src/form.rs:349-506 | an accepted body stays accepted at every cut and only loses unfinished parts |
| `FormDelimiter.PartEndsAtFirstTrueDelimiter` | rust/src/form.rs:471-485 | with the boundaries that requests can carry, a part ends at the very first delimiter followed by CRLF or two dashes, and runs on only if there is none |
| `FormDelimiter.NeverSkipsExactly` | rust/src/form.rs:471-485 | the exact condition for any delimiter at all: the search never skips a true one if and only if wherever two occurrences can overlap, the first one is itself followed by CRLF or two dashes |
| `FormDelimiter.HarmfulSkips` | rust/src/form.rs:471-485 | for every other delimiter, a body whose true delimiter is skipped |
| `FormFraming.FramingTransparent` | rust/src/form.rs:349-506 | whatever follows a framed form, the parser decides it exactly as its raw parts decide one after the other: same items, same first error |
| `FormDisposition.FieldReadBack` | rust/src/form.rs:217-260 | the disposition of a text field reads back as its name, unescaped, and no file name; a backslash at its end does no harm |
| `FormDisposition.FileReadBack` | rust/src/form.rs:217-260 | the disposition of a file whose name does not escape its closing quote reads back as its name and its file name |
| `FormSwallowed.SwallowedFilename` | rust/src/form.rs:217-325 | with a backslash at the end of the name, the name's parameter runs on into the file name: the file name is lost, or what is read in its place is not it |
| `FormDisposition.NameExact` | rust/src/form.rs:234-240 | a quoted text without quotes is unquoted to itself if and only if it has no doubled backslash |
| `FormDisposition.FilenameExact` | rust/src/form.rs:227-247 | a quoted file name is read as itself if and only if it also does not look like a Windows path |
| `FormPrinter.PrintPart` | rust/parity/cases.py:181-193 | one part as clients write it, appended to the body |
| `FormPrinter.PrintForm` | rust/parity/cases.py:168-194 | the printer's loop writes exactly the framed parts |
| `FormRoundTrip.RoundTrip` | rust/parity/cases.py:163-194 | for a boundary without CR, parts whose data holds no delimiter, file parts whose name closes its quotes, and room in the limits, parsing the printed form gives the parts in order, each as unquoting leaves it |
| `FormExact.ArrivesExactly` | rust/src/form.rs:349-506 | a whole printed form is parsed into exactly what was sent if all names are clean, no file part's name ends in a backslash, no file name is a Windows path and the limits hold; and only then, with any charset that keeps ASCII |
| `Charsets.CharsetsKeepAscii` | rust/src/form.rs:120-125 | latin-1, and UTF-8 with latin-1 as its fallback, keep the ASCII bytes of whatever they decode, in order, and add no ASCII |
| `Charsets.Utf8Exact` | rust/src/form.rs:120-125 | bytes are decoded as UTF-8 to a text if and only if they are that text's encoding |
| `FormExact.FieldArrivesExactly` | rust/parity/cases.py:163-194 | a text field arrives as sent if and only if its name holds no quote, CR, LF or doubled backslash |
| `FormExact.UploadArrivesExactly` | rust/parity/cases.py:163-194 | an upload arrives as sent if and only if the same holds of its name and file name, its name does not end in a backslash and its file name does not look like a Windows path |
| `Percent.PercentDecode` | rust/src/http.rs:213-231 | the scanning decoder turns each valid `%XX` into its byte and leaves the rest |
| `Percent.UnquoteToBytes` | rust/src/form.rs:193-210 | the decoder that splits at every percent sign computes the same bytes as the scanning one, on every byte string |
| `Urlencoded.Unquote` | rust/src/form.rs:175-191 | plus signs are spaces and only runs of ASCII are decoded |
| `Urlencoded.ReadUrlencoded` | rust/src/form.rs:148-170 | the fields of a body, or the refusal when a size or count limit is exceeded |
| `Urlencoded.DecodersAgree` | rust/src/http.rs:213-231 | on ASCII text without a plus sign the form decoder and the path decoder give the same text |
| `Urlencoded.QuotedReadsBack` | rust/src/pipeline_tests.rs:250-267 | a text quoted as clients do is decoded to itself |
| `Urlencoded.EncodeThenParse` | rust/src/form.rs:148-170 | parsing an encoded list of fields, empty names and values included, gives exactly the fields if and only if they are within the limits |
| `MessageForm.ParseForm` | rust/src/pipeline.rs:539-640 | the loop with its growing vectors is the fold over the items followed by the completeness checks |
| `MessageForm.ErrorStays` | rust/src/pipeline.rs:539-617 | an error raised at an item does not depend on any item behind it |
| `RouteForm.OrderedDict.Set` | src/mailgun_relay/routes.py:409-413 | assigning to a key keeps its place and replaces its value; a new key goes to the end |
| `RouteForm.FormReader.Handle` | src/mailgun_relay/routes.py:405-452 | one item of the Python route changes the fields exactly as the specification step does, or raises the same error |
| `RouteForm.ParseRouteForm` | src/mailgun_relay/routes.py:381-471 | the Python route's fold over a real dictionary equals the Rust one on every form: same fields, same first error |
| `FormLaws.ParsedForm` | rust/src/pipeline.rs:539-640 | an accepted form: lists in form order, scalars with their last value, headers distinct in first-occurrence order with their last value, total bytes (overwritten ones included) and file count within the limits |
| `FormLaws.AcceptedForms` | rust/src/pipeline.rs:539-640 | a form is accepted if and only if each item is good, what is counted is within the limits, and the required fields are there |
| `Address.Parser.TakeWhile` | rust/src/address.rs:118-124 | moves the position over the longest run of a class and returns it |
| `Address.Parser.ReadCfws` | rust/src/address.rs:128-144 | skips whitespace and comments, collecting the comments, or fails on an open one |
| `Address.Parser.ReadQuoted` | rust/src/address.rs:147-171 | reads and unescapes a quoted string |
| `Address.Parser.ReadPhrase` | rust/src/address.rs:192-203 | reads words and comments up to the opening bracket |
| `Address.ReadMailbox` | rust/src/address.rs:175-221 | the backtracking grammar over the moving position accepts and returns what the specification says |
| `Address.ReadMailboxList` | rust/src/address.rs:59-82 | the comma splitter with its own quote and escape flags, and a mailbox for each piece |
| `AddressLists.ShapeClosed` | rust/src/address.rs:175-221 | what the grammar accepts as one mailbox the splitter never cuts, and it leaves the splitter outside quotes |
| `AddressLists.MailboxIsList` | rust/src/address.rs:49-82 | every accepted mailbox is a one-element list with the same mailbox |
| `AddressLists.ListsConcatenate` | rust/src/address.rs:59-82 | for accepted lists a and b, the list of `a,b` is the concatenation of their lists |
| `AddressHeader.FitsAsReceived` | rust/src/mime.rs:173-194 | a text is written as received if it is printable and every run of spaces with the word behind it fits a line; a text that fits a line as a whole always is |
| `AddressHeader.WriteMailbox` | rust/src/mime.rs:452-494 | one mailbox appended to a header: refused for an encoded word in its local part, its name forwarded and quoted, or written as encoded words |
| `AddressHeader.WriteHeader` | rust/src/mime.rs:426-439 | the loop over the mailboxes writes each behind a comma and a space, and stops at the first refusal |
| `AddressWritten.TextExactly` | rust/src/mime.rs:426-494 | a header is written and holds nothing encoded if and only if no mailbox is refused and every display name, quoted if it must be, is printable and fits its lines |
| `AddressWritten.RefusedExactly` | rust/src/mime.rs:426-494 | a header is refused if and only if a mailbox has an encoded word in its local part, or one in its display name that is not forwarded |
| `AddressRoundTrip.AcceptedStable` | rust/src/address.rs:251-276 | an accepted address, printed and validated again, is the same address with any display name |
| `AddressReadBack.ReadsBack` | rust/src/address.rs:175-221 | behind any whitespace, the grammar reads a written mailbox as its address and its written name as shown |
| `AddressRoundTrip.ListReadsBack` | rust/src/address.rs:59-82 | texts that are read as mailboxes, joined by commas, are read as the list of these mailboxes |
| `AddressWritten.WriteThenParse` | rust/src/mime.rs:426-494 | parsing a written header of accepted mailboxes gives back the list: addresses exact, quoted names exact, unquoted ones with long encoded words split and whitespace collapsed and stripped |
| `AddressRoundTrip.MailboxReadsBack` | rust/src/address.rs:175-276 | a written mailbox alone, also behind a space, is read as the mailbox with its name as shown |
| `AddressFixpoint.CollapseExact` | rust/src/mime.rs:421-425 | collapsing changes nothing if and only if there is no TAB, no space at an end and no two spaces together |
| `AddressFixpoint.ShownTwice` | rust/src/mime.rs:421-425 | what is shown once is shown unchanged a second time |
| `CollapsedWords.CollapseKeepsWords` | rust/src/mime.rs:208-238 | collapsing the whitespace of a text makes and breaks no encoded word |
| `CollapsedWords.CollapseFits` | rust/src/mime.rs:180-193 | a text that fits its lines fits them after collapsing |
| `AddressWritten.Fixpoint` | rust/src/mime.rs:426-494 | for names without encoded words: what a header written as text reads back as is written as text again, and read back unchanged |
| `AddressWritten.SecondRound` | rust/src/mime.rs:426-494 | also with encoded words: the second header is written as text if and only if the list that was read back can be, it gives back that list as forwarded and shown, and changes nothing if no word is too long |
| `AddressWritten.WrittenExactly` | rust/src/mime.rs:426-494 | without long encoded words one round is exact if and only if every display name is quoted or tidy |
| `AddressWritten.ParseWriteParse` | rust/src/mime.rs:545-550 | from any accepted header value on, if its list is written as text: the list comes back as forwarded and shown, and without encoded words nothing changes from then on |
| `Base64.EncodeThenDecode` | rust/src/mime.rs:281-295 | base64 text, its padding trimmed, decodes to the bytes it was written from |
| `Base64.EncodedLength` | rust/src/mime.rs:370-371 | four chars for every started group of three bytes |
| `EncodedWords.FindWords` | rust/src/mime.rs:208-238 | the scan over the list of marks, with its early exit, finds exactly the words of the specification |
| `EncodedWords.WordsExact` | rust/src/mime.rs:208-238 | they are exactly the occurrences of `=?charset?cte?text?=` with no inner `?`, in increasing order |
| `WordSplitting.ReadQ` | rust/src/mime.rs:381-402 | the Q decoder's loop: an underscore is a space, a valid `=XX` a byte, the rest stays |
| `WordSplitting.WriteThenDecodeQ` | rust/src/mime.rs:381-402 | whatever bytes a Q writer leaves plain, decoding gives the bytes back |
| `WordPieces.Split` | rust/src/mime.rs:352-378 | the splitting loop with its backward search for a character boundary |
| `WordPieces.PiecesPartition` | rust/src/mime.rs:361-376 | the pieces make up the bytes, none is empty or larger than the room, and for UTF-8 each ends between characters |
| `WordReadBack.SplitReadsBack` | rust/src/mime.rs:352-378 | the words of a split word are found again, each at most 75 chars long, and their bytes concatenate to the original's |
| `WordReadBack.SplitExists` | rust/src/mime.rs:352-378 | splitting works if and only if the charset leaves room, the bytes are valid UTF-8 where they must be, and every character fits the room |
| `WordForwarding.Forward` | rust/src/mime.rs:319-348 | the loop that copies a value and replaces its long words |
| `WordForwarding.ForwardableIs` | rust/src/mime.rs:319-348 | a value is forwarded if and only if all its words are safe and its long words delimited, apart, unquoted and splittable; then only the long words are replaced |
| `WordForwarding.ShortWordsUnchanged` | rust/src/mime.rs:319-348 | a safe value without a long word is forwarded unchanged |
| `WordForwarding.ReplacementMeans` | rust/src/mime.rs:319-378 | what replaces a long word of a value is words of at most 75 chars with its bytes |
| `ForwardedWords.NoLongWordLeft` | rust/src/mime.rs:319-348 | which forwarded values hold no word longer than 75 chars, told from the received value: exactly those where the padding of no split word makes one with the text behind it, and no dropped word without bytes joins one |
| `LongWordMade.LongWordIsMade` | rust/src/mime.rs:319-348 | a value in which it does, and which is forwarded with a long word |
| `TextBody.Normalize` | rust/src/mime.rs:690-705 | the loop writes every CRLF, CR and LF as CRLF and ends the text with one |
| `TextBody.NormalizedIsLines` | rust/src/mime.rs:690-705 | the result is the text's lines, each followed by CRLF; an empty text has one empty line |
| `TextBody.NormalizedKeepsLines` | rust/src/mime.rs:690-705 | for every text CR and LF occur only as CRLF pairs and one is at the end; the lines are those of the input if and only if it is not empty |
| `TextBody.NormalizedTwice` | rust/src/mime.rs:690-705 | normalising twice is normalising once |
| `MimeTree.BodyTree` | rust/src/mime.rs:632-684 | the one pass builds the specified tree, or fails exactly if an upload is refused |
| `MimeBuild.EmailPart.Add` | src/mailgun_relay/mime_build.py:136-148 | a part object appends to a multipart of the asked type, wraps itself otherwise, and refuses the disallowed conversions |
| `MimeBuild.FindHtmlPart` | src/mailgun_relay/mime_build.py:79-88 | finds the message itself or its first html alternative, and nothing only if there is none |
| `MimeBuild.AddRelated` | src/mailgun_relay/mime_build.py:175-186 | adding to the html part in place changes the message's tree at that part only |
| `MimeBuild.BuildTexts` | src/mailgun_relay/mime_build.py:136-148 | the set-content and add-alternative steps build the group of alternatives |
| `MimeBuild.BuildMessage` | src/mailgun_relay/mime_build.py:136-204 | the step-by-step construction on part objects builds the same tree as the one pass, for uploads whose file names are accepted |
| `MimeShape.LeavesAreInputs` | rust/src/mime.rs:632-684 | the leaves in order are exactly the inputs, once each |
| `MimeShape.TreeIsWellShaped` | rust/src/mime.rs:627-684 | mixed appears only at the root, every inner node has at least two children, and a related part is the html text with inline files |
| `SmtpClient.RunLogin` | rust/src/smtp.rs:392-423 | the mechanisms are tried in order on the connection object |
| `SmtpClient.RunRecipients` | rust/src/smtp.rs:332-371 | the recipient loop with its accepted count, its refusals and the stop at 421 |
| `SmtpClient.RunTransaction` | rust/src/smtp.rs:298-385 | MAIL, the recipients, DATA and the message, with every failure branch |
| `SmtpClient.RunSession` | rust/src/smtp.rs:222-263 | a whole submission: its result and everything said on the connection |
| `SmtpProtocol.SessionIsAWord` | rust/src/smtp.rs:222-440 | for every peer the commands of a session form a word of one language, and the submission succeeds exactly when the message was answered with 250 |
| `SmtpProtocol.EverySession` | rust/src/smtp.rs:222-440 | each command at most once and in order, AUTH and MAIL on an encrypted channel only, MAIL directly behind an AUTH answered with 235, RCPT for a prefix of the recipients, nothing after a 421 or a lost reply, DATA only with all recipients answered and one accepted |
| `SmtpProtocol.DataNeedsRecipients` | rust/src/smtp.rs:335-374 | DATA comes only after every recipient was answered and at least one accepted |
| `SmtpSink.Sink.Serve` | rust/parity/smtp_fake.py:245-296 | one command of the scripted server's loop, its fields updated in place |
| `SmtpSink.ServerHolds` | rust/parity/smtp_fake.py:267-286 | after every session the server holds at most one message, never one for nobody, and for exactly the recipients it accepted, in order |
| `SmtpSink.Conservation` | rust/src/smtp.rs:298-385 | whenever the submission returns its refusals, the server holds one message for the recipients minus those, in order and not empty, and no refusal code is 250, 251 or 421 |
| `SmtpSink.HeldMeansReported` | rust/src/smtp.rs:379-384 | a message that the server holds is reported as failed if and only if the client did not read 250 for it |
| `SmtpSink.HeldButFailed` | rust/parity/smtp_fake.py:280-286 | when no reply is lost, that is if and only if the script answers the end of the message with another code, or with a fault |
| `Lifecycle.MoveIsSound` | rust/src/pipeline.rs:224-276 | every step of a task or its handler, a panic and its unwinding included, keeps its record, slot, lines, result and answer consistent |
| `Lifecycle.UseIsSound` | rust/src/pipeline.rs:416-419 | every use of the permits keeps their number, and keeps the waiters those with a pending acquisition |
| `Lifecycle.NextKeepsInv` | rust/src/pipeline.rs:224-276 | every step of the machine keeps the invariant of permits, requests, task count and shutdown |
| `LifecycleRuns.EveryRun` | rust/src/pipeline.rs:177-276 | over all interleavings: permits free, on their way and held make up the cap; each request submits at most once; once finished it has one request line if and only if its record was created and LOG_LEVEL is at most INFO, and none otherwise; its lines carry the status of its answer and say that the message went out only if it did; the process ends only when every task is finished and no client waits |
| `LifecycleRuns.AcceptedRun` | rust/src/log.rs:66-68 | at every log level an accepted request is answered with 200; above INFO it has no line |
| `LifecycleRuns.EarlyPanicRun` | rust/src/pipeline.rs:240-255 | a task that panics before its record is created is answered with 500 and has no line |
| `LifecycleRuns.RunExtends` | rust/src/pipeline.rs:177-196 | a written line, a task result or a given answer is never changed |
| `LifecycleRuns.PanicUnwinds` | rust/src/pipeline.rs:177-276 | a panicked task unwinds in at most three steps, gives up its permit or its place in the queue, and writes a line with status 500 exactly if its record lived |
| `LifecycleProgress.WaitIsBounded` | rust/src/pipeline.rs:416-419 | a waiting request is not overtaken: it sees at most as many permits given back as there were requests before it, whatever newcomers do |
| `LifecycleProgress.FirstIsNext` | rust/src/pipeline.rs:416-419 | a permit that is given back goes to the first waiter |
| `LifecycleProgress.CanGoOn` | rust/src/pipeline.rs:416-419 | no deadlock: while a request is unfinished or unanswered, some request can go on |
| `LifecycleProgress.CanEnd` | rust/src/main.rs:142-157 | from every state the process can drain, stop and end |
| `Yaml.Handle` | rust/src/yaml.rs:226-294 | one event of the loop: the stack, the anchors and the root after it, or its error |
| `Yaml.Parse` | rust/src/yaml.rs:206-297 | the event loop is the run of the step function, and its stack never holds more than 64 frames |
| `Yaml.RunDepth` | rust/src/yaml.rs:239-241 | no run over any events opens more than 64 collections |
| `YamlTree.RunTree` | rust/src/yaml.rs:206-297 | from any state, the machine run over the events of a tree places the node the recursive definition gives, or fails with its error |
| `YamlTree.MachineBuildsTree` | rust/src/yaml.rs:206-297 | a whole document parses to the node of its tree, or fails as the tree does |
| `YamlScope.BuildJudges` | rust/src/yaml.rs:239-272 | a tree is built only if every alias names an already finished node and nothing is nested deeper than 64, and those two errors mean just that |
| `YamlScope.RecursionRefused` | rust/src/yaml.rs:268-272 | a collection that would hold itself is refused |
| `YamlScope.LastEntryWins` | rust/src/yaml.rs:37-46 | a lookup in a mapping finds the value of the last entry with the key; elsewhere, and without such an entry, nothing |
| `Calendar.YearOfEraIs` | rust/src/log.rs:101-103 | the chain's year of the era is the one year that holds the day |
| `Calendar.CivilIsCalendar` | rust/src/log.rs:97-109 | for every day count the division chain, in 64-bit unsigned arithmetic without underflow, is the calendar that starts at 1970-01-01 and goes on day by day |
| `Calendar.StampsInOrder` | rust/src/log.rs:97-115 | later instants have later stamps, so no two share one |
| `Calendar.StampIsValid` | rust/src/yaml.rs:128-150 | a stamp passes the secrets reader's timestamp check if and only if it is not behind the year 9999 |
| `IntParse.StrictIsExact` | rust/src/config.rs:189-211 | parsing succeeds exactly on optionally signed digits with single inner underscores whose value is in the 64-bit range, and returns that value; the 19-digit cut-off loses nothing |
| `IntParse.PrintThenParse` | rust/src/config.rs:189-211 | every 64-bit integer is read back as printed |
| `IntParse.IntIsExact` | rust/src/config.rs:214-226 | the lenient parser also takes an integer with a fraction of zeros, and nothing else |

## Left out

- Domain names: IDNA, UTS46 and punycode are an abstract table that is idempotent on its own results, lowercase ASCII and never empty.
- A form's charset decoder is a parameter (`Charsets` has both of the program's), and so is lossy UTF-8; the round trips of URL-encoded text need a codec that decodes what it encodes and reads ASCII as itself.
- Written addresses: folding, and the bytes of a display name that is written as encoded words; the text that is encoded is modelled, its encoding is the library's.
- `AddressWritten.SecondRound`: with encoded words in display names, whether the second header can be written is a condition on the list that was read back, not on the first one; collapsing can change the text of a word that holds spaces.
- The other header checks of message construction (message ids, subjects, Content-ID, upload content types) and the de-duplication of the envelope are short and not modelled.
- lettre, TLS, sockets, timeouts: an attempt ends in a reply, in no reply, or is refused before it is sent; the library's own QUIT on an aborted connection and its test for a broken connection are part of the peer.
- The scripted server's fault that hangs is the end of the session, and a line of a message that arrives as a command is answered with 502; the code for a recipient may depend on the whole address.
- An encrypted channel comes from STARTTLS or from the start; certificates are not modelled.
- Request life cycle: the JSON of a record, durations, failed writes to stdout (which are ignored), a panic while a line is written (which ends the process), and the early exit when a listening server fails.
- Request life cycle: the queue of tokio's semaphore is modelled as documented, first come first served.
- The YAML scanner and parser and the regular expressions: the model starts at the events and takes the implicit type of a plain scalar from a resolver.
- `YamlTree.MachineBuildsTree`: covers documents with one tree; other event streams are covered by the step function and the depth bound only.
- Multipart parts are read to their end in memory, as the source does; the charset's name is not modelled, only its decoder.
- `MimeBuild.BuildMessage`: the file name rules of the two programs are one parameter, so that both refuse the same names is not claimed.
- Python's email package is modelled only as far as wrap-or-append and the disallowed conversions of its multipart types.
- SHA-256, randomness, clocks and the rendering of log lines.
