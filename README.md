# MAPI to Maildir: a Dafny model of the converter's core

MAPI to Maildir copies the messages of an Outlook/MAPI store into Maildir
mailboxes, one mailbox per MAPI folder. This project models the part of it
that decides what ends up on disk.

- **`MaildirWriter.cs`**:
  - the mailbox naming and the `tmp`/`cur`/`new` layout;
  - the unique-id counter, message-class dispatch and Maildir file name;
  - the translation of an `IPM.Note` into an output message: sender, recipients, body and HTML body, attachments, reconciled transport headers and the `X-<tag>` property dump;
  - LF line-end normalisation of the saved file;
  - the guard that sets the file times only when a receive time exists;
  - the folder loop.
- **`MapiUtils.cs`**:
  - the property-lookup conventions (what is null, what is a sentinel, what becomes an error string);
  - the seven-step RTF-to-HTML stripping pipeline.

The MAPI store is a value: `MapiMessage` has
- a map from property tag to a fetch result (a value, a per-property error code, a failed call or a thrown exception);
- the property list;
- the properties that open as text streams;
- the decoded RTF body;
- the recipient rows and the attachment rows.

Each row carries its cells and, for attachments, the outcome of opening the data streams.

The output message is the record `Mail.OutMessage`. Its header, recipient and attachment lists only grow.

The writer is the class `Maildir.MaildirWriter`:
- its counter is the field `lastUniqueId`;
- the files of its `cur` directory are a `map` from file name to text;
- the file times set on them are a second `map`.

A random draw, the host name, the current time and the message serialiser are inputs (`draw`, `Env`).

Modules:
- `Text`: string search, replacement and number formatting;
- `MapiProps`: properties and the getters;
- `Rtf`: the RTF pipeline;
- `Mail`: the output record;
- `Headers`: transport headers and the property dump;
- `Translation`: `ProcessMailMessage` and `CopyAttachments`;
- `LineEnds`: the LF line-end copy of a saved message;
- `Maildir`: naming and the writer.

Regular expressions are modelled as the left-to-right scans .NET performs. Each scan is:
- a recursive function over a start position that resumes where the previous match ended;
- given as lemmas stating which matches it takes and what the rewritten text then satisfies.

`\s` is .NET's whitespace class. `Environment.NewLine` is CRLF.

## Model

| member | source | states |
|---|---|---|
| Text.IndexOf | MapiUtils.cs:116-120 | `IndexOf` finds the first occurrence of the pattern, and reports none exactly when the pattern occurs nowhere |
| Text.ReplaceCharRemovesIt | MaildirWriter.cs:331-333 | after replacing a character by a text that lacks it, the character no longer occurs |
| Text.ReplaceCharKeepsOthers | MaildirWriter.cs:331-333 | replacing one character neither adds nor removes any other character that the replacement does not contain |
| Text.ReplaceCharByChar | MaildirWriter.cs:34 | replacing one character by another keeps the length and changes exactly the positions holding that character |
| Text.NatToString | MaildirWriter.cs:116-118 | a number prints as a non-empty run of decimal digits, with no leading zero unless the number is 0 |
| Text.ParseNatToString | MaildirWriter.cs:116-118 | the printed decimal form of a number reads back as that number |
| Text.NatToStringInjective | MaildirWriter.cs:116-118 | different numbers print differently |
| Text.IntToString | MapiException.cs:17 | a signed value prints as its magnitude, preceded by `-` when negative |
| Text.ParseNatToHex | MapiException.cs:21 | the lower-case hexadecimal form of a number reads back as that number |
| Text.ParseNatToHexWidth | MapiUtils.cs:179 | the zero-padded upper-case hexadecimal form reads back as the number |
| MapiProps.TagName | MaildirWriter.cs:316 | every tag has a non-empty printed name |
| MapiProps.Unsigned | MapiUtils.cs:179 | a status code is printed as its unsigned 32-bit pattern: negative codes wrap by 2^32 |
| MapiProps.GetProperty | MapiUtils.cs:229-255 | the result is null exactly for a not-found error; a value comes back unchanged; every other failure becomes a string starting `Exception: ` instead of an exception |
| MapiProps.GetStringProperty | MapiUtils.cs:137-145 | null exactly when `GetProperty` is null; a string property comes back as its text |
| MapiProps.GetLongProperty | MapiUtils.cs:220-227 | an absent property yields `Int32.MinValue`; any other non-sentinel result is the stored 32-bit integer; the cast fails exactly when a non-integer is present |
| MapiProps.GetSysTimeProperty | MapiUtils.cs:202-209 | an absent property yields `DateTime.MinValue`; any other non-sentinel result is the stored time; the cast fails exactly when a non-time is present |
| MapiProps.GetLongStringProperty | MapiUtils.cs:147-180 | never null: the stream text when the property opens, else a text starting `Error getting ` |
| MapiProps.LongStringErrorNamesStatus | MapiUtils.cs:179 | the error text ends in exactly eight upper-case hex digits that read back as the failing status |
| Rtf.FirstCloseFrom | MapiUtils.cs:95 | finds the first unescaped `\htmlrtf0` at or after a position, or reports that there is none |
| Rtf.BlockAt | MapiUtils.cs:95 | a block starting at a position spans at least the opening and closing tags and stays inside the text |
| Rtf.FindBlockFrom | MapiUtils.cs:95-97 | finds a position where a block starts, or reports that no block starts at or after the position |
| Rtf.StripBlocksFrom | MapiUtils.cs:97 | one replace pass never lengthens the text, and shortens it whenever a block is found |
| Rtf.StripBlocks | MapiUtils.cs:97 | a pass over a text holding a block strictly shortens it, which bounds the loop |
| Rtf.StripBlocksToFixpoint | MapiUtils.cs:95-98 | repeating the pass ends in a text no longer than the input that holds no unescaped `\htmlrtf … \htmlrtf0` block |
| Rtf.RemoveHtmlRtfBlocks | MapiUtils.cs:95-98 | the `while` loop computes the fixpoint, and on exit no position starts a block |
| Rtf.BraceOnLine | MapiUtils.cs:103 | finds the first `}` before any line feed, escaped or not, or reports none |
| Rtf.PntextAt | MapiUtils.cs:103 | an unescaped `\pntext` match ends just before a `}` |
| Rtf.DropPntextFrom | MapiUtils.cs:103 | removing the `\pntext` runs never lengthens the text |
| Rtf.DropPntextFromCopies | MapiUtils.cs:103 | text in which no `\pntext` run starts is left exactly as it was |
| Rtf.DropPntextFromShortens | MapiUtils.cs:103 | text in which a `\pntext` run starts comes out strictly shorter |
| Rtf.DropBracesFromEscapes | MapiUtils.cs:106 | every brace left by the brace-removal scan is preceded by a backslash, in the output or just before the scanned part |
| Rtf.DropBracesLeavesEscaped | MapiUtils.cs:106 | after brace removal, every remaining `{` or `}` is immediately preceded by `\` |
| Rtf.WordRunEnd | MapiUtils.cs:109 | a control word's letters form the maximal run of `[a-z0-9-]` characters |
| Rtf.ControlWordAt | MapiUtils.cs:109 | a control-word match starts with a backslash and has at least one character after it |
| Rtf.DropControlWordsFrom | MapiUtils.cs:109 | removing control words never lengthens the text |
| Rtf.DropControlWordsFromCopies | MapiUtils.cs:109 | text in which no control word starts is left exactly as it was |
| Rtf.DropControlWordsFromShortens | MapiUtils.cs:109 | text in which a control word starts comes out strictly shorter |
| Rtf.FromFirstAngle | MapiUtils.cs:116-122 | there is no result exactly when the text has no `<`; otherwise the result is the suffix starting at the first `<` |
| Rtf.RtfToHtml | MapiUtils.cs:70-135 | no result unless the text starts with `{\rtf1` and contains `\fromhtml`; a result always starts with `<` |
| Rtf.BodyRtfToHtml | MapiUtils.cs:70-135 | the statement-by-statement pipeline computes the same result as the stripping pipeline |
| Rtf.RtfToHtmlIsSuffixFromFirstAngle | MapiUtils.cs:73-122 | a result exists exactly when the prefix and `\fromhtml` checks pass and a `<` survives stripping; it is the stripped text from its first `<` |
| Rtf.OutputIsNotRtf | MapiUtils.cs:73 | converting the HTML a second time yields null, because it starts with `<` and not with `{\rtf1` |
| Rtf.NoParAtNonBackslash | MapiUtils.cs:89 | a `\par` match can only start at a backslash |
| Rtf.ParMatchesDisjoint | MapiUtils.cs:89 | a `\par` match consumes five characters, so the next match starts after them |
| Rtf.ParBreaksFromCr | MapiUtils.cs:89 | on a text without CR, the `\par` rewrite puts a CR only in a CRLF it produced, one per unescaped `\par` and its whitespace |
| Rtf.RemoveNewLinesDropsCr | MapiUtils.cs:88 | if every CR stands in a CRLF, removing CRLFs leaves no CR |
| Rtf.StepOneLineBreaks | MapiUtils.cs:88-89 | for input whose every CR already begins a CRLF: after the second step, every CR begins a CRLF, and there is exactly one per unescaped `\par` plus one whitespace character that was replaced |
| Rtf.RemoveNewLinesCanLeaveCrlf | MapiUtils.cs:88 | one CRLF-removal pass can create a CRLF from the text around the one it removed |
| Mail.NewMessage | MaildirWriter.cs:132-134 | a fresh output message is dated with the receive time and has no content at all |
| Headers.NameRunEnd | MaildirWriter.cs:262-264 | a header name is the maximal run of letters, digits and hyphens |
| Headers.WsRunEnd | MaildirWriter.cs:265 | each `\s*` takes the maximal whitespace run, line breaks included |
| Headers.ValueEnd | MaildirWriter.cs:266-269 | the lazy value stops at the first CRLF or LF followed by non-whitespace, or at the end of input |
| Headers.MatchAt | MaildirWriter.cs:260-275 | a match at a position is name, whitespace, colon, whitespace, then a value up to the first boundary; when there is none, no name-and-whitespace prefix is followed by a colon |
| Headers.ScannedNamesWellFormed | MaildirWriter.cs:277-280 | every scanned header has a non-empty name made only of letters, digits and hyphens (`WellFormedName`) |
| Headers.ScannedValuesFolded | MaildirWriter.cs:266-269 | in every scanned value, a line feed other than the last one is followed by whitespace |
| Headers.FoldFromNoInnerLineFeed | MaildirWriter.cs:296 | collapsing folds in such a value leaves at most one line feed, at its very end |
| Headers.FoldedValueIsOneLine | MaildirWriter.cs:277-296 | every emitted transport-header value is a single line, apart from a possible final line feed |
| Headers.ValueCanEndInLineFeed | MaildirWriter.cs:266-269 | a value can end in a line feed: in `A: x\n\r\nB: y` the first header's value is `x\n`, since only the CRLF before `B` is a boundary |
| Headers.Reconcile | MaildirWriter.cs:277-300 | reconciliation never emits more headers than were parsed |
| Headers.ReconcileAppend | MaildirWriter.cs:277-300 | kept headers stay in source order |
| Headers.ReconcileMembers | MaildirWriter.cs:277-298 | a header is emitted exactly when a non-reserved header with that name was parsed, and its value is that header's value with folds collapsed |
| Headers.ReconcileDropsReserved | MaildirWriter.cs:284-293 | no emitted transport header has one of the ten reserved names, in any letter case |
| Headers.KeepTransportHeaders | MaildirWriter.cs:277-300 | the `foreach` loop adds exactly the reconciled headers |
| Headers.Escape | MaildirWriter.cs:331-333 | an escaped value contains no LF, CR or TAB |
| Headers.EscapeAppend | MaildirWriter.cs:331-333 | escaping works character by character: it distributes over concatenation |
| Headers.EscapeChar | MaildirWriter.cs:331-333 | LF, CR and TAB become the two-character `\n`, `\r` and `\t`; every other character is kept |
| Headers.EscapeKeepsPlainText | MaildirWriter.cs:331-333 | a value without LF, CR or TAB is left unchanged |
| Headers.PropHeader | MaildirWriter.cs:305-336 | no header exactly for the seven skipped tags and binary values; otherwise the header is `X-<tag>`; its value is `<null>` for an absent value and otherwise the escaped text of the fetched value, so no LF, CR or TAB |
| Headers.FailedFetchIsDumped | MaildirWriter.cs:318-339 | a property whose fetch fails other than by not-found is still dumped, as an `Exception: ` text, and never reaches the `X-Exception` handler |
| Headers.PropertyHeaders | MaildirWriter.cs:303-340 | the dump emits at most one header per listed property |
| Headers.PropertyHeadersAppend | MaildirWriter.cs:305-340 | the dump follows the property list's order |
| Headers.PropertyHeadersMembers | MaildirWriter.cs:305-340 | a header is dumped exactly when some listed property yields it |
| Headers.DumpProperties | MaildirWriter.cs:303-340 | the `foreach` loop adds exactly the dumped headers |
| Headers.XNameNotReserved | MaildirWriter.cs:316 | no `X-` name is a reserved name |
| Headers.DumpHasNoReservedName | MaildirWriter.cs:251-341 | nothing the whole dump adds has a reserved name |
| Headers.DumpMapiProperties | MaildirWriter.cs:251-341 | the message gains the reconciled transport headers and then the property dump, after the headers it already had, and only when transport headers are present |
| Translation.KindOf | MaildirWriter.cs:374-388 | a recipient is Cc exactly for type 2 and Bcc exactly for type 3; any other value falls back to To |
| Translation.CellString | MaildirWriter.cs:366-372 | a cell gives a string exactly when it holds a string value |
| Translation.RecipientsOf | MaildirWriter.cs:361-391 | the rows throw exactly when some row's type is not an integer; otherwise there is one recipient per row, in table order |
| Translation.CopyRecipients | MaildirWriter.cs:353-392 | the row loop throws exactly when the recipient rows do, and otherwise appends exactly the recipients of the rows |
| Translation.ResolveBodiesAsWritten | MaildirWriter.cs:421-436 | as written: the body is always the long-string result, error text included; the HTML is set exactly when the RTF yields HTML, and then it is the `PR_BODY_HTML` result |
| Translation.RecoveredHtmlIsDiscarded | MaildirWriter.cs:428-435 | as written, HTML recovered from RTF is replaced by an error text when `PR_BODY_HTML` is missing |
| Translation.OpenedText | MapiUtils.cs:147-180 | the text of a stream that opened; nothing otherwise |
| Translation.ResolveBodies | MaildirWriter.cs:417-436 | the body is `PR_BODY` when readable; the HTML is absent unless the RTF yields HTML, and then it is `PR_BODY_HTML` when readable, else the recovered HTML |
| Translation.ResolveBodiesAgreesWhenReadable | MaildirWriter.cs:421-436 | when both streams open, the corrected decision equals the code as written |
| Translation.CorrectedHtmlIsNeverErrorText | MaildirWriter.cs:417-420 | a resolved HTML body is either the `PR_BODY_HTML` text or starts with `<` |
| Translation.AsciiBytes | MaildirWriter.cs:534 | ASCII encoding gives one byte per character: the character's code below 128, and `?` (63) for any other character |
| Translation.AsciiText | MaildirWriter.cs:534 | one character per byte: the reading-back inverse of the encoding at line 534 (the source itself only encodes), used by `FailedPayloadReadsBack` |
| Translation.AsciiRoundTrip | MaildirWriter.cs:534 | decoding the bytes of an ASCII text gives the text back |
| Translation.AttachFilename | MaildirWriter.cs:485-489 | a string cell is used as the filename; anything else becomes `Attach<idx>.dat` |
| Translation.DefaultFilenamesDiffer | MaildirWriter.cs:473-488 | different rows get different default filenames |
| Translation.AttachMimeTag | MaildirWriter.cs:497-501 | a string cell is used as the MIME type; anything else becomes `application/x-octet-stream` |
| Translation.DataStream | MaildirWriter.cs:505-509 | `PR_ATTACH_DATA_OBJ` is tried only when `PR_ATTACH_DATA_BIN` is not found; any other outcome for BIN stands |
| Translation.AttachData | MaildirWriter.cs:511-535 | an opened stream gives its bytes; a failure gives the ASCII encoding of `Error getting contents of attachment '<filename>' due to error '<hr>'` |
| Translation.FailedPayloadReadsBack | MaildirWriter.cs:533-535 | when the filename and the error name are ASCII, the payload of a failed open decodes back to exactly that error text |
| Translation.AttachmentForRow | MaildirWriter.cs:475-541 | a row fails exactly when its attachment number is not an integer or its object is null; otherwise its attachment has the defaulted filename, MIME type and content-id and the data or error text |
| Translation.AttachmentsFrom | MaildirWriter.cs:473-545 | at most one attachment per row |
| Translation.AttachmentsAppend | MaildirWriter.cs:473-545 | the rows are processed in table order, and numbering continues across them |
| Translation.RowKeepsItsNumber | MaildirWriter.cs:473-476 | the `k`-th row is numbered `k + 1` whether or not earlier rows failed, and one row's failure only removes that row's attachment |
| Translation.CopyAttachments | MaildirWriter.cs:463-547 | the loop with its per-row `try` appends exactly the attachments of the rows |
| Translation.TranslationThrowsOnBadRecipientType | MaildirWriter.cs:362 | translating a note throws exactly when some recipient row's type is not an integer |
| Translation.TranslationAdds | MaildirWriter.cs:343-443 | a translation keeps the date and the existing headers, adds one recipient per row and at most one attachment per row, and adds only non-reserved headers |
| Translation.ProcessMailMessage | MaildirWriter.cs:343-443 | the statement sequence computes the translation, bodies decided as written (null tests that always pass) |
| Translation.TranslationBodiesAsWritten | MaildirWriter.cs:421-436 | a translated note's body is always the `PR_BODY` long-string result, error text included; its HTML body is unchanged without RTF, absent when the RTF yields no HTML, and otherwise the `PR_BODY_HTML` long-string result, error text included |
| Maildir.EscapeTitle | MaildirWriter.cs:34 | the escaped title has the title's length, contains no `.`, and differs from it only where the title had `.`, which becomes `_` |
| Maildir.MailboxPathIsOneLevel | MaildirWriter.cs:34-37 | the mailbox path is the parent, a dot, then a component as long as the title that holds no further dot |
| Maildir.TitlesCanShareMailbox | MaildirWriter.cs:34-37 | titles differing only in `.` against `_` map to the same mailbox |
| Maildir.Combine | MaildirWriter.cs:25 | joining paths keeps the directory as a prefix and the child as a suffix |
| Maildir.AbsentFlagsAreClear | MaildirWriter.cs:108-111 | the `Int32.MinValue` sentinel of absent flags reads as neither read nor unsent |
| Maildir.FlagSuffix | MaildirWriter.cs:125-130 | the flag suffix is one of "", "S", "D", "SD"; `S` iff read and `D` iff unsent |
| Maildir.DigitsThenDot | MaildirWriter.cs:116-118 | a name that starts with digits and a dot splits at that dot |
| Maildir.FileNameIdRoundTrip | MaildirWriter.cs:115-130 | the id can be read back from the file name's second field |
| Maildir.FreshName | MaildirWriter.cs:113-130 | a name built with an id above every earlier id is not an existing file name |
| LineEnds.LineEnd | MaildirWriter.cs:171 | a line ends at a position inside the text or at its end |
| LineEnds.LineEndIsFirstBreak | MaildirWriter.cs:171 | `ReadLine` ends a line at the first CR or LF, or at the end of the text |
| LineEnds.NextLine | MaildirWriter.cs:171 | the next line starts strictly after the terminator and inside the text; how CRLF counts is stated by `CrlfIsOneBreak` |
| LineEnds.CrlfIsOneBreak | MaildirWriter.cs:162-176 | a CRLF ends one line: the copy writes a single LF for it and goes on after the pair |
| LineEnds.LoneCrIsOneBreak | MaildirWriter.cs:162-176 | a CR not followed by LF also ends a line and is written as one LF |
| LineEnds.LfLinesReplacesCrlf | MaildirWriter.cs:162-176 | on text that ends with a line break and has no CR outside a CRLF, the copy equals `Replace("\r\n", "\n")`: Windows line ends become Unix ones and nothing else changes |
| LineEnds.LfLinesFromShape | MaildirWriter.cs:167-176 | the normalised text has no CR, ends with an LF unless empty, and is non-empty whenever there is text left |
| LineEnds.LfLinesFromKeepsUnixText | MaildirWriter.cs:167-176 | a text without CR that ends with an LF is copied unchanged |
| LineEnds.LfLinesIdempotent | MaildirWriter.cs:167-176 | normalising leaves no CR, and normalising twice changes nothing |
| LineEnds.NormalizeLineEnds | MaildirWriter.cs:167-176 | the `ReadLine` copy loop writes exactly the normalised text |
| Maildir.ReadStamp | MaildirWriter.cs:106-111 | the attempt throws exactly when one of the three typed casts fails; otherwise the stamp has the receive time and the read and unsent bits of the flags |
| Maildir.FetchStamp | MaildirWriter.cs:106-111 | the three fetches in order give the stamp read from the message |
| Maildir.NoteOutcomeWritten | MaildirWriter.cs:136-157 | a written note keeps its name and date, and its last header is the conversion header |
| Maildir.AddOutcomeOfOthers | MaildirWriter.cs:60-154 | reports are skipped; a message is filed only once its stamp could be read; only notes are written, and other classes get their placeholder body |
| Maildir.AddOutcomeWritten | MaildirWriter.cs:112-157 | a written note is named after its stamp and the advanced counter, dated with the receive time, and ends with the conversion header |
| Maildir.MaildirWriter.constructor | MaildirWriter.cs:22-27 | a new writer for a path uses `<path>/cur`, starts the counter at the seed and has no files |
| Maildir.MaildirWriter.CreateMailDir | MaildirWriter.cs:29-52 | the mailbox is the parent plus `.` plus the escaped title, created before its `tmp`, `cur` and `new` subdirectories; the writer starts empty |
| Maildir.MaildirWriter.BuildFileName | MaildirWriter.cs:115-130 | the name built piece by piece is `ticks.id.host;2,` with the flag suffix |
| Maildir.MaildirWriter.AddMessage | MaildirWriter.cs:60-218 | the counter rises by `1 + draw` exactly for messages that are not reports and whose stamp was read, and stays put otherwise; a written file gets a name not used before and holds the LF-normalised text; the file time is set only when a receive time exists |
| Maildir.MaildirWriter.FileStamped | MaildirWriter.cs:112-217 | once the stamp is read, the counter advances and the result is the outcome `AddOutcome` gives; only notes can add a file |
| Maildir.MaildirWriter.FileOther | MaildirWriter.cs:112-154 | a non-note class advances the counter, gets a placeholder body (its `AddOutcome`) and writes nothing |
| Maildir.AddOutcomeOfNote | MaildirWriter.cs:112-157 | a note whose stamp was read is named with the advanced counter and goes on to be translated |
| Maildir.MaildirWriter.FileNote | MaildirWriter.cs:112-217 | a note advances the counter, is named with the new id, and is written under a fresh name unless its translation throws |
| Maildir.MaildirWriter.WriteNote | MaildirWriter.cs:136-217 | a translated note is stored with the conversion header; a throwing translation changes nothing |
| Maildir.MaildirWriter.Store | MaildirWriter.cs:159-217 | the file holds the LF-normalised serialisation; its time is set exactly when the receive time is not `DateTime.MinValue` |
| Maildir.MaildirWriter.AddFolder | MaildirWriter.cs:220-249 | the counter rises by at most 100 per entry; existing files are never changed; completion means every entry opened; an abort at an entry that failed to open comes after entries that all opened |

## Left out

- `GetBodyRtf` (MapiUtils.cs:22-59): the RTF decompression and its stream reads are foreign calls. The decoded RTF text is an input (`MapiMessage.rtf`).
- The UTF-8 decoding of the RTF bytes (MapiUtils.cs:71) is an input.
- The COM stream read loops (MapiUtils.cs:159-172, MaildirWriter.cs:516-531) are foreign I/O. A stream that opens yields its whole content as a given value.
- `GetBinaryProperty`, `GetEntryIdProperty` and `GetAppTimeProperty` (MapiUtils.cs:182-218) are not called by the modelled code.
- The `QueryRows` loops are not modelled as loops. Rows arrive as given sequences, and a failing `QueryRows` is the end of the sequence.
- The `OpenAttach` status (MaildirWriter.cs:483) is ignored, as in the code. An attachment object left null makes the row fail (`NoObject`).
- Filesystem effects (MaildirWriter.cs:39-49, 159-178) are a list of directory paths and a map of files:
  - deleting an existing mailbox;
  - temporary files;
  - `File.Delete`.
- The `#if DEBUG` dumps (MapiUtils.cs:81-85, 124-128) are debug-only file writes.
- The timezone compensation (MaildirWriter.cs:198-216) depends on platform time-zone rules and `double` minutes. The recorded file time is the receive time itself; only the `DateTime.MinValue` guard is kept.
- Environment values are inputs:
  - `Dns.GetHostName()` is `Env.host`;
  - `DateTime.Now` in `X-ConvertedFromMapi` is `Env.now`;
  - each `Random` draw is `draw` (below 100) or the constructor's `seed`.
- `MailMessage.Save` is an external serialiser, `Env.save`. MailMessage.cs internals are not part of this model.
- Maildir.MaildirWriter.AddMessage: `_lastUniqueId` is a 64-bit `long`. The model uses unbounded integers. An overflow would take more than 9·10^16 messages.
- Headers.NameRunEnd: with `IgnoreCase`, .NET may also match a few non-ASCII letters that fold onto `a`-`z`, such as the Kelvin sign. The model accepts only ASCII letters, digits and `-`.
- Headers.Reconcile: `ToLower()` (MaildirWriter.cs:284-293) follows the current culture. The model lowers only `A`-`Z`, as the invariant culture does for the ASCII names the scan admits. Under a Turkish culture `MIME-Version` lowers to `mıme-version` with a dotless i, so the code as written keeps that header, and `Headers.ReconcileDropsReserved` would not hold there.
- Headers.ReconcileDropsReserved: holds for the invariant (or any non-Turkic) culture only, for the reason given under `Headers.Reconcile`.
- Rtf.RtfToHtml: `StartsWith(@"{\rtf1")` (MapiUtils.cs:73) is a culture-sensitive comparison in .NET. The model compares characters ordinally, which agrees for the current culture on this plain ASCII prefix unless the culture's collation ignores or merges some of those characters.
- Text.IndexOf: `IndexOf("<")` (MapiUtils.cs:116) is culture-sensitive in .NET as well. The model searches ordinally; a culture that treats some characters before `<` as ignorable is not modelled.
- Rtf.StepOneLineBreaks: proved only for input whose every CR already begins a CRLF. In general it fails: one CRLF-removal pass can create a CRLF (`Rtf.RemoveNewLinesCanLeaveCrlf`: `"\r\r\n\n"` becomes a CRLF), and that CRLF then survives step 2 without coming from a `\par`.
- Maildir.MaildirWriter.AddFolder: states the counter bound, that existing files are kept, and where the loop stops. Each message's own outcome is stated by `AddMessage`, which the loop calls.
- The `X-Exception` handler (MaildirWriter.cs:337-339) cannot be reached. `GetProperty` never throws (`Headers.FailedFetchIsDumped`), so the model has no such branch.
- `ProcessContact`, `ProcessAppointment`, `ProcessNote`, `ProcessTask` and `ProcessUnknownMsgClass` (MaildirWriter.cs:447-461) only set a placeholder body, `Maildir.PlaceholderBody`. That message is never written.
- MainFrm.cs (the user interface, store logon and folder tree), MapiFolderNode.cs and MapiStoreNode.cs are not part of this model.

## Findings

| source | as written | input that shows it | evidently intended | confidence | as-written member | corrected member |
|---|---|---|---|---|---|---|
| MaildirWriter.cs:421-436 | the HTML body and the plain body are each kept only when `GetLongStringProperty` is non-null, but that getter never returns null (MapiUtils.cs:179): a failed open yields `Error getting <tag>: <hr>` | a message whose RTF was derived from HTML (`{\rtf1 … \fromhtml … <html>`) and that has no `PR_BODY_HTML` stream: `HtmlBody` becomes `Error getting PR_BODY_HTML: 8004010F` instead of the recovered HTML, and an unreadable `PR_BODY` puts its error text in `Body` | per the comment at lines 417-420: use `PR_BODY_HTML` when it is present and the HTML recovered from the RTF otherwise, and set `Body` only from a readable `PR_BODY` | not executed | Translation.RecoveredHtmlIsDiscarded | Translation.ResolveBodies |

The translation (`Translation.TranslateMail`, `Translation.ProcessMailMessage`) follows the code as written, `ResolveBodiesAsWritten`; `Translation.TranslationBodiesAsWritten` states the bodies it produces. The corrected decision `Translation.ResolveBodies` is defined and proved on its own. `Translation.ResolveBodiesAgreesWhenReadable` proves that it matches the code as written whenever both streams open. `Translation.CorrectedHtmlIsNeverErrorText` proves that the corrected HTML is never an error text.
