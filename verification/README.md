# Verified models of ffead-cpp text cores

Dafny models of three pieces of ffead-cpp, with proofs about every input and every run:

* **The HTTP head parsers and the chunked decoder** (`picohttpparser_fcp`). The decoder rewrites the caller's
  buffer in place and keeps its state between calls; the parsers are called again and again on a growing buffer.
  Both are modelled with arrays, cursors and loops, and proved against byte-at-a-time specifications. About these
  it is proved which byte streams they accept (exactly the grammars of RFC 7230 as the code reads them), when they
  ask for more and when they report an error, that
  splitting a stream changes nothing, that more input never changes an answer, and that the fast scans and the
  `is_complete` shortcut lose nothing.
* **The JSON printer and the acceptance filter** (`json2.js`). A recursive printer with a shared mutable `gap`,
  a reader written from RFC 8259 that inverts it, its line breaks by bracket depth, and the regular-expression stages
  in front of `eval` with the exact form of the texts they pass.
* **The two template compilers** (`TemplateGenerator`). One rewrites a line until no placeholder is left, the other
  cuts pieces off its front. The programs they generate are read back as C++ statements and run; both do what
  direct interpretation of the template says.

## Layout

| files | what they hold |
|---|---|
| `Common`, `Bytes` | optional values, character codes and hexadecimal digits; bytes and the constants of the parsers |
| `ChunkedMachine`, `ChunkedDecoder` | the one-byte machine and the in-place decoder |
| `ChunkedGrammar`, `ChunkedLanguage` | the message grammar; reading what was printed, and printing what was read |
| `HttpScan`, `HttpParse` | scanners and parsers as functions of the bytes received so far |
| `HttpReader`, `HttpContentLength` | the parsers as they run, with both builds of the fast scans |
| `HttpGrammar`, `HttpMessages`, `HttpShape`, `HttpShortcut` | grammar, round trips, shape of results, the shortcut |
| `HttpVerdict`, `HttpResponseVerdict` | when the parsers ask for more and when they report an error |
| `JsonText`, `JsonPrint`, `JsonTokens`, `JsonLayout` | strings, the printer, its tokens, line breaks and indentation |
| `JsonLex`, `JsonRead`, `JsonFilter`, `JsonAccepted` | the reader; the filter, what it accepts, and that it accepts every print |
| `TemplateText`, `TemplateExpand`, `TemplateGenerate` | string operations, placeholder loops, the two generators |
| `TemplateLine`, `TemplateKinds`, `TemplateDirective`, `TemplateMeaning` | lines as pieces, kinds of lines, directives, what programs and templates mean |
| `TemplateTheorem`, `TemplateSkeleton`, `TemplateBraces` | the equivalence of the generators; control and braces of the programs |
| `TemplateHang`, `TemplateHangLine`, `TemplateOrder`, `TemplateEnds` | when the rewriting loops never end: any line, lines by their loose brace, lines by their pieces, whole templates |

`dafny verify dfyconfig.toml` checks everything.

## What the code does not promise

* The rewriting template generator does not end on every line. `StringUtil::replaceAll` returns at once for an
  empty pattern, and the pattern is empty when the first `}` stands right before the first opener. This happens on
  `}${x}`, and also on lines in which every brace closes a placeholder: on `${a}$_S{b}`, where the loop over `$_S{`
  meets the brace of `${a}`, and on `${a} $_S{b}${c}`. `TemplateHang.HangsIff`, `TemplateHangLine.HangsIfGlued`,
  `TemplateOrder.OrderHangs` and `TemplateEnds.NeverEndsInOrder` give the exact conditions. The cutting generator
  always ends.
* The `is_complete` shortcut is not lossless for `phr_parse_headers_fcp`: a blank line CR LF whose CR was all that
  earlier reads had brought is not recognised, unless two line ends in a row (its own may be the first) stand in the
  input before a bare CR. It is reported as incomplete, or as an error if a bare CR comes first.
  `HttpShortcut.HeadersShortcut` gives the exact condition on the input and the earlier length.
* Behind the shortcut an error may be reported later than without it, when the two line ends have not come yet, or
  earlier, when a bare CR has come that the parser has not reached. `HttpShortcut.ShortcutDiffers` says exactly when.
* A head parser may ask for more although no continuation can parse. `HttpVerdict.RequestVerdict` and
  `HttpResponseVerdict.ResponseVerdict` say exactly when, on the bytes: a missing method is noticed at the end of the
  path, a wrong version with its ninth byte, a wrong status with its fourth, text right behind the status at the end
  of its line. For a header block this never happens (`HttpVerdict.HeadersVerdict`).
* The filter in front of `eval` also passes texts that are not JSON, such as `01`, `1-2` or `}`.
  `JsonFilter.FilterExactly` says which texts it passes.
* The content length is an `int`: it is the announced number only below 2^31, and 2147483648 gives a negative one
  (`HttpContentLength.ContentLengthExact`, `HttpContentLength.FirstTooLarge`).
* A directive does not always lose its `#` in the generated program: `#elseif` keeps it, and so does a `#define` with
  no space behind it, such as `#define` alone or `#defineX 1`. `TemplateDirective.HashExactly` says exactly when.
  A `#declare` with no space behind it does the same in the declarations (`TemplateDirective.DeclareKeeps`).

## Model

| member | source | states |
|---|---|---|
| Common.HexValueIs | ffead-cpp-interface-test-lib/src/picohttpparser_fcp.cpp:521-532 | a byte has the value of its place in `0-9A-F` or `0-9a-f`, and any other byte has none |
| ChunkedGrammar.HexIs | ffead-cpp-interface-test-lib/src/picohttpparser_fcp.cpp:521-532 | the bytes the decoder takes for hex digits are the characters of `0-9A-F` and `0-9a-f`, and no others |
| ChunkedMachine.StepKeepsValid | ffead-cpp-interface-test-lib/src/picohttpparser_fcp.cpp:539-638 | invariant of the six states: in SIZE the pending count is below 16^`_hex_count` with at most 16 digits, in DATA it is positive, in CRLF and the trailer states it is zero; the count read in SIZE is the unwrapped `16 * old + digit` |
| ChunkedMachine.NoWrap | ffead-cpp-interface-test-lib/src/picohttpparser_fcp.cpp:553-558 | with the digit cap, `bytes_left_in_chunk * 16 + v` never wraps 64 bits |
| ChunkedMachine.DecodeShape | ffead-cpp-interface-test-lib/src/picohttpparser_fcp.cpp:582-598 | over every run: data and unread bytes together are no more than the input, what is unread is a suffix of it, -2 means that every byte was consumed, completion means at least one was |
| ChunkedMachine.DecodeSplit | ffead-cpp-interface-test-lib/src/picohttpparser_fcp.cpp:534-647 | decoding `a + b` is decoding `a` and resuming with `b`, for every split and every state |
| ChunkedMachine.FeedIsDecode | ffead-cpp-interface-test-lib/src/picohttpparser_fcp.cpp:534-647 | any cutting of a stream into buffers gives the data, final state, verdict and unread tail of one call on the whole |
| ChunkedMachine.DecodeData | ffead-cpp-interface-test-lib/src/picohttpparser_fcp.cpp:582-598 | copying a block of pending data is the fold of the one-byte machine over it |
| ChunkedDecoder.MoveDown | ffead-cpp-interface-test-lib/src/picohttpparser_fcp.cpp:585-593 | `memmove` to a lower address with overlap: the target holds the old source bytes, all others stay |
| ChunkedDecoder.StepOn | ffead-cpp-interface-test-lib/src/picohttpparser_fcp.cpp:539-638 | one byte read by a loop of the decoder is one step of the machine, and keeps `dst <= src` and the unread input in place |
| ChunkedDecoder.TurnToExt | ffead-cpp-interface-test-lib/src/picohttpparser_fcp.cpp:546-561 | leaving the digit loop at a non-digit without consuming it, and reading it as extension, is what the one-byte machine does |
| ChunkedDecoder.BlockStep | ffead-cpp-interface-test-lib/src/picohttpparser_fcp.cpp:582-598 | a block copy keeps `dst <= src`, puts the block right behind the decoded bytes and does not touch unread input |
| ChunkedDecoder.Tidy | ffead-cpp-interface-test-lib/src/picohttpparser_fcp.cpp:640-646 | the last copy leaves the data followed by the unread input; bytes beyond the buffer size stay |
| ChunkedDecoder.Decoder.constructor | ffead-cpp-interface-test-lib/src/picohttpparser_fcp.h:59-64 | a zeroed decoder is in state SIZE with nothing pending |
| ChunkedDecoder.Decoder.IsInData | ffead-cpp-interface-test-lib/src/picohttpparser_fcp.cpp:649-652 | true exactly in state DATA |
| ChunkedDecoder.Decoder.ReadSize | ffead-cpp-interface-test-lib/src/picohttpparser_fcp.cpp:541-561 | the digit loop, to the end of the input, the end of the numeral, or an error, in step with the specification |
| ChunkedDecoder.Decoder.CopyData | ffead-cpp-interface-test-lib/src/picohttpparser_fcp.cpp:582-598 | one block copy for all of the data at hand; afterwards in CRLF, or in DATA with the input used up |
| ChunkedDecoder.Decoder.ReadExt | ffead-cpp-interface-test-lib/src/picohttpparser_fcp.cpp:563-580 | skips to LF, then data, trailer or completion by the pending count |
| ChunkedDecoder.Decoder.ReadCrlf | ffead-cpp-interface-test-lib/src/picohttpparser_fcp.cpp:600-613 | skips CR, wants LF; a pass that goes on consumes input |
| ChunkedDecoder.Decoder.ReadTrailerLine | ffead-cpp-interface-test-lib/src/picohttpparser_fcp.cpp:614-634 | one trailer line, or the blank line that completes the message |
| ChunkedDecoder.Decoder.Pass | ffead-cpp-interface-test-lib/src/picohttpparser_fcp.cpp:539-638 | one pass over the phases keeps in step with the specification, and consumes input if another is to follow |
| ChunkedDecoder.Decoder.Decode | ffead-cpp-interface-test-lib/src/picohttpparser_fcp.cpp:534-647 | the in-place block-copying loop computes exactly the byte-at-a-time run: same state, return code and decoded size; the buffer then holds the data followed by the untouched unread tail, and nothing beyond the buffer size changed; it terminates |
| ChunkedGrammar.DecodeDigits | ffead-cpp-interface-test-lib/src/picohttpparser_fcp.cpp:542-559 | in the middle of a numeral the pending count is its value so far, below 16^digits |
| ChunkedGrammar.DecodeChunk | ffead-cpp-interface-test-lib/src/picohttpparser_fcp.cpp:541-613 | a chunk of section 4.1 of RFC 7230 gives its data and leaves the machine as before it |
| ChunkedGrammar.DecodeTrailer | ffead-cpp-interface-test-lib/src/picohttpparser_fcp.cpp:614-634 | trailer lines and the blank line are consumed, and nothing behind them |
| ChunkedGrammar.RoundTrip | ffead-cpp-interface-test-lib/src/picohttpparser_fcp.cpp:534-647 | every message of the grammar (leading zeros, extensions, trailers; with and without `consume_trailer`), whatever follows it, gives exactly its data and stops right behind it |
| ChunkedLanguage.TooManyDigits | ffead-cpp-interface-test-lib/src/picohttpparser_fcp.cpp:553-556 | a 17th hex digit is an error |
| ChunkedLanguage.MessageOf | ffead-cpp-interface-test-lib/src/picohttpparser_fcp.cpp:534-647 | a stream the decoder completes on is a message of the grammar followed by the unread tail |
| ChunkedLanguage.DecodesExactly | ffead-cpp-interface-test-lib/src/picohttpparser_fcp.cpp:534-647 | the decoder completes with given data and tail if and only if the stream is a message holding that data, then that tail |
| ChunkedLanguage.VerdictExactly | ffead-cpp-interface-test-lib/src/picohttpparser_fcp.cpp:534-647 | the return code: -1 if and only if no continuation of the stream starts with a message, completion if and only if the stream itself does, so -2 in all other cases |
| ChunkedLanguage.StreamedRoundTrip | ffead-cpp-interface-test-lib/src/picohttpparser_fcp.cpp:534-647 | the round trip for a message cut into buffers in any way |
| ChunkedLanguage.StreamedNumeral | ffead-cpp-interface-test-lib/src/picohttpparser_fcp.cpp:542-559 | a numeral cut across calls: the pending count is its value and fits in 64 bits |
| HttpScan.ClassesAre | ffead-cpp-interface-test-lib/src/picohttpparser_fcp.cpp:54-104 | the classes of bytes by their characters: blanks, digits, bytes of a token of the first line, text, and name bytes, which are the `tchar` of section 3.2.6 of RFC 7230 |
| HttpScan.PrefixIs | ffead-cpp-interface-test-lib/src/picohttpparser_fcp.cpp:239-256 | the literal bytes: `HTTP/1.`, CR, LF, space, colon, zero |
| HttpScan.TokenEndAt | ffead-cpp-interface-test-lib/src/picohttpparser_fcp.cpp:72-95 | the scanner finds the one position that ends a token; with `TokenEnd` this determines the scan |
| HttpScan.NameEndAt | ffead-cpp-interface-test-lib/src/picohttpparser_fcp.cpp:298-312 | the same for header names and their colon |
| HttpScan.TextEndAt | ffead-cpp-interface-test-lib/src/picohttpparser_fcp.cpp:173-195 | the same for text up to CR LF or LF |
| HttpScan.VersionExactly | ffead-cpp-interface-test-lib/src/picohttpparser_fcp.cpp:246-262 | asks for more below nine bytes; else succeeds exactly on `HTTP/1.` and the digit of the minor version, eight bytes |
| HttpParse.SpacesStop | ffead-cpp-interface-test-lib/src/picohttpparser_fcp.cpp:448-455 | stripping the spaces before the reason phrase stops at the line end at the latest, so its length never falls below zero |
| HttpParse.HeadersKept | ffead-cpp-interface-test-lib/src/picohttpparser_fcp.cpp:264-350 | a header block parsed or rejected stays so, with the same fields, under every extension |
| HttpParse.RequestKept | ffead-cpp-interface-test-lib/src/picohttpparser_fcp.cpp:352-392 | a request parsed or rejected stays so, with the same parts, under every extension |
| HttpParse.ResponseKept | ffead-cpp-interface-test-lib/src/picohttpparser_fcp.cpp:422-463 | the same for responses |
| HttpGrammar.BlockRead | ffead-cpp-interface-test-lib/src/picohttpparser_fcp.cpp:264-350 | every block of the grammar is parsed to its fields and consumed to its end |
| HttpGrammar.BlockOf | ffead-cpp-interface-test-lib/src/picohttpparser_fcp.cpp:264-350 | whatever the parser accepts is a block of the grammar |
| HttpGrammar.HeadersExactly | ffead-cpp-interface-test-lib/src/picohttpparser_fcp.cpp:264-350 | the header parser returns given fields and length if and only if the buffer starts with a block of the grammar with these parts |
| HttpMessages.RequestRead | ffead-cpp-interface-test-lib/src/picohttpparser_fcp.cpp:352-392 | every request head of the grammar is parsed to its parts |
| HttpMessages.RequestOf | ffead-cpp-interface-test-lib/src/picohttpparser_fcp.cpp:352-392 | whatever the parser accepts is a request head of the grammar |
| HttpMessages.RequestExactly | ffead-cpp-interface-test-lib/src/picohttpparser_fcp.cpp:352-392 | the request parser accepts exactly the grammar, with exactly these parts and this length |
| HttpMessages.RequestRoundTrip | ffead-cpp-interface-test-lib/src/picohttpparser_fcp.cpp:352-392 | printing any method, path, minor version and at most `max_headers` fields and parsing it, whatever follows, gives them back and consumes the print |
| HttpMessages.ResponseRead | ffead-cpp-interface-test-lib/src/picohttpparser_fcp.cpp:422-463 | every response head of the grammar is parsed to its parts |
| HttpMessages.ResponseOf | ffead-cpp-interface-test-lib/src/picohttpparser_fcp.cpp:422-463 | whatever the parser accepts is a response head of the grammar |
| HttpMessages.ResponseExactly | ffead-cpp-interface-test-lib/src/picohttpparser_fcp.cpp:422-463 | the response parser accepts exactly the grammar; the status is the value of the three digits |
| HttpMessages.ResponseRoundTrip | ffead-cpp-interface-test-lib/src/picohttpparser_fcp.cpp:422-463 | round trip for responses; the status is below 1000 |
| HttpMessages.BlockShown | ffead-cpp-interface-test-lib/src/picohttpparser_fcp.cpp:264-350 | the spans returned for a block hold the names and values it was printed from |
| HttpVerdict.FinishHeaders | ffead-cpp-interface-test-lib/src/picohttpparser_fcp.cpp:264-350 | a header block that is waited for is completed by some continuation |
| HttpVerdict.HeadersVerdict | ffead-cpp-interface-test-lib/src/picohttpparser_fcp.cpp:264-350 | a header block is an error (-1) if and only if no continuation of it parses |
| HttpVerdict.RequestVerdict | ffead-cpp-interface-test-lib/src/picohttpparser_fcp.cpp:352-392 | a request is waited for (-2) if and only if it has not parsed and some continuation parses, or the method is missing and the path has not ended, or fewer than nine bytes that start no version stand behind the path; an error is final |
| HttpResponseVerdict.ResponseVerdict | ffead-cpp-interface-test-lib/src/picohttpparser_fcp.cpp:422-463 | a response is waited for if and only if it has not parsed and some continuation parses, or there are fewer than nine bytes that start no version, or fewer than four bytes stand for the status and are not all digits, or text stands right behind the status and its line has not ended; an error is final |
| HttpShape.HeaderShape | ffead-cpp-interface-test-lib/src/picohttpparser_fcp.cpp:281-337 | one field: non-empty token name at its start, clean value behind it, no name only where a continuation is allowed |
| HttpShape.RequestShape | ffead-cpp-interface-test-lib/src/picohttpparser_fcp.cpp:352-392 | method, path and fields non-empty, disjoint and in order inside the bytes consumed; names are tokens, values end in no blank and hold no control byte but HT; the first field is no continuation; at most `max_headers` fields |
| HttpShape.ResponseShape | ffead-cpp-interface-test-lib/src/picohttpparser_fcp.cpp:422-463 | the same for responses: status within 0..999, the reason inside its line, starting with no space |
| HttpShortcut.CompleteFound | ffead-cpp-interface-test-lib/src/picohttpparser_fcp.cpp:198-224 | resuming 3 bytes before the old end, the scan still sees both line ends of a head that ends behind it |
| HttpShortcut.HeadClosed | ffead-cpp-interface-test-lib/src/picohttpparser_fcp.cpp:352-463 | an answer depends on the bytes of the head alone; these have no bare CR and end in two line ends |
| HttpShortcut.ShortcutLossless | ffead-cpp-interface-test-lib/src/picohttpparser_fcp.cpp:408-419 | if the first `last_len` bytes did not parse, the call behind `is_complete` succeeds exactly when the plain call does, with the same length and parts |
| HttpShortcut.ShortcutErrorFinal | ffead-cpp-interface-test-lib/src/picohttpparser_fcp.cpp:480-488 | an error reported behind the shortcut is final: no continuation parses |
| HttpShortcut.CompleteIs | ffead-cpp-interface-test-lib/src/picohttpparser_fcp.cpp:198-224 | the scan finds, from three bytes before the old end on, two line ends in a row before any bare CR, or a bare CR before any two line ends in a row, or neither and then asks for more |
| HttpShortcut.ShortcutDiffers | ffead-cpp-interface-test-lib/src/picohttpparser_fcp.cpp:408-419 | the guarded and the plain call differ if and only if one has seen an error and the other still asks for input: plain -1 while from three bytes before the old end on there are neither two line ends in a row nor a bare CR, or plain -2 while a bare CR stands there before any two line ends in a row |
| HttpShortcut.ErrorLater | ffead-cpp-interface-test-lib/src/picohttpparser_fcp.cpp:408-419 | an input on which the guarded call reports an error later than the plain one |
| HttpShortcut.ErrorEarlier | ffead-cpp-interface-test-lib/src/picohttpparser_fcp.cpp:408-419 | an input on which it reports an error earlier: `GET / `, CR and another byte |
| HttpShortcut.PollIsParse | ffead-cpp-interface-test-lib/src/picohttpparser_fcp.cpp:394-420 | a whole connection: parsing after every read, with the length before it, succeeds exactly when one call on all bytes does, with the same answer |
| HttpShortcut.HeadersShortcut | ffead-cpp-interface-test-lib/src/picohttpparser_fcp.cpp:491-510 | for `phr_parse_headers_fcp`, on every input that did not parse before: the guarded call succeeds, with the same answer, if and only if the plain one does, unless the earlier reads brought a single byte, that byte is CR, and no two line ends in a row stand from the second byte on before a bare CR; it then reports an error if a bare CR stands there, else that more is needed |
| HttpShortcut.BlankLineLost | ffead-cpp-interface-test-lib/src/picohttpparser_fcp.cpp:491-510 | the lost answer: CR LF, byte by byte, asks for more |
| HttpShortcut.BlankLineRejected | ffead-cpp-interface-test-lib/src/picohttpparser_fcp.cpp:491-510 | and CR LF with a bare CR behind it is an error |
| HttpShortcut.BlankLineSaved | ffead-cpp-interface-test-lib/src/picohttpparser_fcp.cpp:491-510 | two line ends in a row further on save the answer |
| HttpContentLength.ContentLengthExact | ffead-cpp-interface-test-lib/src/picohttpparser_fcp.cpp:339-346 | the last field named content-length in any letter case decides; the result is its leading digits in 32 bits, the announced number if and only if that is below 2^31, hence for at most nine digits |
| HttpContentLength.FirstTooLarge | ffead-cpp-interface-test-lib/src/picohttpparser_fcp.cpp:339-346 | the value 2147483648 gives -2147483648 |
| HttpContentLength.ContentLengthUnchanged | ffead-cpp-interface-test-lib/src/picohttpparser_fcp.cpp:339-346 | without such a field the caller's value stays |
| HttpContentLength.NameIs | ffead-cpp-interface-test-lib/src/picohttpparser_fcp.cpp:339 | the name is `content-length`, each character in either letter case |
| HttpContentLength.AddUpDigits | ffead-cpp-interface-test-lib/src/picohttpparser_fcp.cpp:340-345 | the digit loop gives the value of the leading digits in 32 bits |
| HttpContentLength.NameMatches | ffead-cpp-interface-test-lib/src/picohttpparser_fcp.cpp:339 | the length test and `strncasecmp` hold exactly for content-length in any letter case |
| HttpReader.TokenRanges | ffead-cpp-interface-test-lib/src/picohttpparser_fcp.cpp:75-77 | what the ranges of the block scan let pass is a byte of a token |
| HttpReader.TextRanges | ffead-cpp-interface-test-lib/src/picohttpparser_fcp.cpp:140-144 | the ranges are exactly the bytes that end text |
| HttpReader.NameRanges | ffead-cpp-interface-test-lib/src/picohttpparser_fcp.cpp:285-294 | what the ranges let pass is a name byte and no colon |
| HttpReader.FindCharFast | ffead-cpp-interface-test-lib/src/picohttpparser_fcp.cpp:106-133 | block skipping passes over no byte in the ranges; `found` means that it stopped at one, and otherwise it passed over all whole blocks, or over nothing in the build without block compares |
| HttpReader.AdvanceToken | ffead-cpp-interface-test-lib/src/picohttpparser_fcp.cpp:72-95 | with or without block skipping, the scan is the byte-at-a-time `TokenEnd` |
| HttpReader.AdvanceName | ffead-cpp-interface-test-lib/src/picohttpparser_fcp.cpp:284-312 | the same for header names |
| HttpReader.UnrolledText | ffead-cpp-interface-test-lib/src/picohttpparser_fcp.cpp:148-171 | the 8-byte unrolled loop passes over text only; it stops at a byte that is none, or with fewer than eight bytes left |
| HttpReader.GetTokenToEol | ffead-cpp-interface-test-lib/src/picohttpparser_fcp.cpp:135-196 | with block skipping or the unrolled loop, the scan is the byte-at-a-time `TextEnd` |
| HttpReader.ParseHttpVersion | ffead-cpp-interface-test-lib/src/picohttpparser_fcp.cpp:246-262 | the byte tests are `Version` |
| HttpReader.CheckComplete | ffead-cpp-interface-test-lib/src/picohttpparser_fcp.cpp:198-224 | the loop of `is_complete` is `IsComplete` |
| HttpReader.ReadHeaders | ffead-cpp-interface-test-lib/src/picohttpparser_fcp.cpp:264-350 | the loop over lines fills in the fields of `Headers`, touches no slot from `max_headers` on, and updates the content length |
| HttpReader.ReadRequest | ffead-cpp-interface-test-lib/src/picohttpparser_fcp.cpp:352-392 | refines `ParseRequest` on the bytes below `len`: verdict, length, parts, fields, content length |
| HttpReader.ReadResponse | ffead-cpp-interface-test-lib/src/picohttpparser_fcp.cpp:422-463 | refines `ParseResponse` |
| HttpReader.PhrParseRequest | ffead-cpp-interface-test-lib/src/picohttpparser_fcp.cpp:394-420 | the entry point: return code of the guarded parse, its parts on success, nothing written when the shortcut says no |
| HttpReader.PhrParseResponse | ffead-cpp-interface-test-lib/src/picohttpparser_fcp.cpp:465-489 | the same for responses |
| HttpReader.PhrParseHeaders | ffead-cpp-interface-test-lib/src/picohttpparser_fcp.cpp:491-510 | the same for header blocks |
| JsonText.QuoteIsEscaped | public/json2.js:208-223 | the fast path of `quote` gives what escaping every character would |
| JsonText.EscapeDigits | public/json2.js:219-220 | `slice(-4)` of the padded `toString(16)` is four hex digits with the value of the character |
| JsonText.MetaIs | public/json2.js:196-204 | the table of two-character escapes: seven characters, each with its own letter |
| JsonText.ClassesAre | public/json2.js:192-193 | the characters `cx` and `escapable` list, as ranges; white space and digits |
| JsonText.MarksAre | public/json2.js:209-348 | the brackets, commas, colons and quotes as characters |
| JsonPrint.WordsAre | public/json2.js:260-281 | the words `true`, `false` and `null` |
| JsonPrint.Printer.Str | public/json2.js:226-350 | the recursive printer with its shared `gap` gives the specified text, and leaves `gap` and `indent` as it found them |
| JsonPrint.Printer.Stringify | public/json2.js:355-395 | starts with an empty gap and the indentation asked for by `space`: none, a text, or as many spaces as the number rounded up, none if it is negative |
| JsonPrint.RenderWrapped | public/json2.js:305-348 | the text glued together with `join` is the text of the tokens: brackets, breaks, items, separators |
| JsonTokens.NeatTokens | public/json2.js:226-350 | every printed value is a sequence of JSON tokens and white space in which no number touches another token |
| JsonTokens.NoBlanksTokens | public/json2.js:287-348 | without blanks, the tokens of the indented print are those of the compact print |
| JsonLayout.TokensLaidOut | public/json2.js:287-348 | at any depth, the printed tokens are the compact tokens with a gap between neighbours that only the bracket depth decides: a line break and one indentation for each open bracket behind an opening bracket not closed at once and behind a comma, the same with one bracket less before a closing bracket, one space behind a colon, nothing elsewhere |
| JsonLayout.PrintLaidOut | public/json2.js:355-395 | so the printed text is that layout of the compact tokens from depth zero, or the compact tokens as they are when the indentation is empty; these hold no white space |
| JsonLex.NumberExactly | public/json2.js:258-262 | the numbers the printer is trusted with are exactly those of section 6 of RFC 8259: the reader takes their whole text for them |
| JsonLex.ReadEscaped | public/json2.js:208-223 | reading an escaped string gives the string back and stops at its closing quote |
| JsonLex.LexRender | public/json2.js:208-350 | the lexical reader of RFC 8259 recovers the tokens from the printed text |
| JsonLex.IndentationOnly | public/json2.js:287-348 | deleting white space outside string literals from the indented print gives the compact print |
| JsonRead.ReadBack | public/json2.js:226-350 | the grammar of RFC 8259 reads the compact tokens, whatever follows, back as the value printing keeps |
| JsonRead.RoundTrip | public/json2.js:208-350 | for every value and white-space indentation the reader gives back the value without its unprintable members, and with null for unprintable items; only an unprintable value gives no text |
| JsonRead.CleanPlain | public/json2.js:260-338 | printing loses nothing if and only if JSON has a form for every part of the value |
| JsonFilter.CxReplaced | public/json2.js:438-444 | the first stage, character by character: a character of `cx` becomes a backslash, `u` and its four hex digits, any other stays |
| JsonFilter.SpaceIs | public/json2.js:456-459 | the white space of the regular expressions, as a list |
| JsonFilter.FirstPiece | public/json2.js:457-458 | if only permitted characters are left of a text, the first two replacements made one mark of a string literal, word, number or permitted character at its front; a number is taken as long as it goes |
| JsonFilter.SimplePieces | public/json2.js:457-458 | the first two replacements make one bracket of every string literal, word and number, and leave everything else |
| JsonFilter.AllDropped | public/json2.js:459 | the third replacement leaves only permitted characters if and only if every opening bracket stands, over white space, behind a colon, a comma, the start or another such bracket |
| JsonFilter.FilterExactly | public/json2.js:435-459 | the filter accepts a text if and only if what the first stage makes of it, which is what is evaluated, is made of string literals with proper escapes, `true`, `false`, `null`, numbers, white space and `[ ] { } , :`, every opening bracket in its place |
| JsonFilter.NoCalls | public/json2.js:447-459 | outside its string literals an accepted text holds no `(`, `)` or `=` |
| JsonAccepted.PiecesAre | public/json2.js:208-350 | the printed text is made of such pieces |
| JsonAccepted.SettledTokens | public/json2.js:287-348 | every opening bracket of a print stands in its place |
| JsonAccepted.PrintAccepted | public/json2.js:435-459 | every printed text is left unchanged by the first stage of `parse` and is accepted |
| TemplateText.TrimExactly | src/modules/common/StringUtil.cpp:175-187 | trimming takes away the white space at both ends and nothing else |
| TemplateKinds.PreparedKind | src/framework/TemplateGenerator.cpp:64-193 | which kind a prepared line is, said on the line before its quotes are escaped: text if it does not start with `#` and holds neither `${` nor `$_S{`, a directive if it starts with one of the eleven keywords |
| TemplateKinds.KeywordExactly | src/framework/TemplateGenerator.cpp:80-193 | the directive of a line is the keyword it starts with, `#else` only where the line does not start with `#elseif(` |
| TemplateKinds.SlotIs | src/framework/TemplateGenerator.cpp:246-257 | how placeholders are written, and the code they stand for |
| TemplateKinds.EmissionsAre | src/framework/TemplateGenerator.cpp:258 | the statements that emit text and code |
| TemplateExpand.PassProgress | src/framework/TemplateGenerator.cpp:246-257 | a pass of the rewriting loop takes an opener away, or is stuck and changes nothing |
| TemplateExpand.HangsExactly | src/framework/TemplateGenerator.cpp:246-257 | a pass gets on if and only if the first closing brace does not stand right before the first opener |
| TemplateExpand.RewritingEnds | src/framework/TemplateGenerator.cpp:246-257 | on every line with no closing brace right before an opener, well-formed or not, both loops end |
| TemplateExpand.RewritingHangs | src/framework/TemplateGenerator.cpp:246-257 | a line on which the loop never ends: `}${x}` |
| TemplateExpand.RunRewriting | src/framework/TemplateGenerator.cpp:246-257 | the loop gives the line of the specification, or never ends |
| TemplateExpand.RunCutting | src/framework/TemplateGenerator.cpp:487-510 | the cutting loop gives the pieces and the rest of the specification; the text that is left gets shorter with every pass |
| TemplateHang.HangsIff | src/framework/TemplateGenerator.cpp:246-257 | on every line, nested and quoted names included, the loop never ends if and only if a brace closes nothing and an opener stands right behind the first such brace once the placeholders in front of it, and those equal to them, are replaced |
| TemplateHangLine.HangsAtLooseBrace | src/framework/TemplateGenerator.cpp:246-257 | so a line that hangs has an opener right behind its first loose brace |
| TemplateHangLine.SweptIff | src/framework/TemplateGenerator.cpp:246-257 | a placeholder behind the loose brace, nested or quoted names included, is replaced along with one in front of it if and only if an equal one stands there behind paired text, if none of the placeholders that end it stands there |
| TemplateHangLine.HangsIfGlued | src/framework/TemplateGenerator.cpp:246-257 | with paired text in front of a loose brace, the loop never ends if and only if an opener stands right behind the brace and its placeholder, if closed, does not stand in front behind paired text; left to `TemplateHang.HangsIff` are only placeholders ended by one that stands in front too, and quoted names when a backslash stands right before a dollar sign |
| TemplateHangLine.PreparedTame | src/framework/TemplateGenerator.cpp:64-67 | on lines as the generators prepare them, quotes need no more than that no backslash stands right before a dollar sign |
| TemplateHangLine.LineHangsIff | src/framework/TemplateGenerator.cpp:246-257 | the same as a condition on the line |
| TemplateHangLine.WithoutTextSlots | src/framework/TemplateGenerator.cpp:246-257 | both loops, on lines without `$_S{` |
| TemplateOrder.BehindValue | src/framework/TemplateGenerator.cpp:246-251 | the line the first loop leaves when its first brace stands clear in front of the first opener: each opener has become a call that reaches to the end of the line |
| TemplateOrder.OrderHangs | src/framework/TemplateGenerator.cpp:246-257 | both loops, on every line of well-formed placeholders in any order: one of them never ends if and only if the first `$_S{..}` that stands behind the first `${..}` without an equal in front of that stands right behind it, or has right behind itself a `${..}` without an equal in front |
| TemplateHang.ScannedEnds | src/framework/TemplateGenerator.cpp:246-257 | the loop ends on every line in which no brace is loose, nested placeholders included |
| TemplateEnds.NeverEndsIff | src/framework/TemplateGenerator.cpp:63-260 | the rewriting generator never ends if and only if one of its loops never ends on one of the lines with placeholders |
| TemplateEnds.NeverEndsInOrder | src/framework/TemplateGenerator.cpp:63-260 | for templates of well-formed placeholders in any order, the condition on the pieces of the lines |
| TemplateEnds.OutOfOrderHangs | src/framework/TemplateGenerator.cpp:246-257 | `${a}$_S{b}` is such a line: the first loop never ends |
| TemplateEnds.BehindCallHangs | src/framework/TemplateGenerator.cpp:246-257 | on `${a} $_S{b}${c}` the second loop never ends; on `${a} $_S{b}${a}` both end |
| TemplateLine.ReplaceSegs | src/modules/common/StringUtil.cpp:67-76 | replacing the text of a placeholder replaces the placeholders of that kind and name, and nothing else |
| TemplateLine.ExpandLineSegs | src/framework/TemplateGenerator.cpp:246-258 | both rewriting loops turn every placeholder of a well-formed line into its expression, and end |
| TemplateLine.CutIsCutSegs | src/framework/TemplateGenerator.cpp:487-511 | the cutting loop takes off the placeholders one by one, with the text before each |
| TemplateGenerate.GenerateTempCd | src/framework/TemplateGenerator.cpp:57-268 | the loop over lines that collects text, flushes it and appends statements gives the statements of the specification, or never ends |
| TemplateGenerate.GenerateTempCdFast | src/framework/TemplateGenerator.cpp:297-521 | the same for the cutting generator |
| TemplateGenerate.NeverNone | src/framework/TemplateGenerator.cpp:487-510 | the cutting generator ends on every template |
| TemplateMeaning.StreamSegs | src/framework/TemplateGenerator.cpp:246-258 | the rewritten line, read as the `<<` statement it becomes, emits what the line means |
| TemplateMeaning.LiteralRead | src/framework/TemplateGenerator.cpp:66 | text with its quotes escaped is read in a string literal as the text |
| TemplateMeaning.ReadsKind | src/framework/TemplateGenerator.cpp:67-193 | a line that reads as text, as a directive or as text with placeholders is taken as such by the generators |
| TemplateTheorem.CutMeans | src/framework/TemplateGenerator.cpp:487-511 | the appended pieces of a line emit what that part of the line means |
| TemplateTheorem.SlotLineMeans | src/framework/TemplateGenerator.cpp:246-258 | a line with placeholders, by either generator, emits what the line means in front of what follows |
| TemplateDirective.DirectiveMeans | src/framework/TemplateGenerator.cpp:121-193 | the control text generated for a well-formed directive, read as C++, opens and closes the block or runs the code the directive stands for |
| TemplateDirective.HashExactly | src/framework/TemplateGenerator.cpp:121-193 | the code generated for a directive line starts with `#` if and only if the directive is `#elseif`, or `#define` without a space behind it, or `#define` with code of its own that starts with `#` |
| TemplateDirective.DefineKeeps | src/framework/TemplateGenerator.cpp:121-128 | with a space behind `#define` the code is what follows it, without a final `#`; without one the code still starts with `#define` |
| TemplateDirective.DefineKeepsHash | src/framework/TemplateGenerator.cpp:121-128 | `#define` and `#defineX 1` stay what they are |
| TemplateDirective.DeclareKeeps | src/framework/TemplateGenerator.cpp:80-90 | the text of a declaration: what follows `#declare ` or `#declareref `; with neither in front it still starts with `#declare` |
| TemplateDirective.ElseIfKeepsHash | src/framework/TemplateGenerator.cpp:156-164 | `#elseif(x)` becomes `#else if(x)` |
| TemplateTheorem.GeneratorsAgree | src/framework/TemplateGenerator.cpp:63-517 | for every well-formed template and every value of the expressions, both programs do what direct interpretation of the template says: the blocks and code its directives stand for, and the same text between them |
| TemplateTheorem.AgreeOnAnyDirective | src/framework/TemplateGenerator.cpp:63-517 | with any directives at all, `#elseif` and malformed ones included, the two programs still do the same |
| TemplateSkeleton.SkeletonIs | src/framework/TemplateGenerator.cpp:80-193 | on every template, well-formed or not, both programs have exactly the control statements of the directive lines, in order |
| TemplateSkeleton.SkeletonMeans | src/framework/TemplateGenerator.cpp:121-193 | on every template with well-formed directives, whatever its other lines hold, the control of both programs does what the directives stand for, in order |
| TemplateSkeleton.NestedBalanced | src/framework/TemplateGenerator.cpp:129-193 | properly nested directives give balanced control statements |
| TemplateBraces.BalancedText | src/framework/TemplateGenerator.cpp:129-193 | counted outside string literals, the braces in the text of control statements whose code closes what it opens never close too early and end balanced if and only if the statements are nested so |
| TemplateBraces.ControlBalance | src/framework/TemplateGenerator.cpp:129-193 | on every template with properly nested directives, whatever its other lines hold, so do the braces of the control text of both programs |
| TemplateBraces.BracesBalance | src/framework/TemplateGenerator.cpp:63-517 | for a well-formed template with properly nested directives, the braces of the whole generated body, counted outside string literals, never close too early and end balanced, in both programs |
| TemplateBraces.FreeLinesEven | src/framework/TemplateGenerator.cpp:121-173 | directive lines without braces and quotes are such: their code closes what it opens |

## Left out

- HttpReader.FindCharFast: the SSE instructions are not modelled; each block compare is "the first of 16 bytes that is in the ranges". Both builds (`sse` true and false) are covered.
- HttpReader.ReadRequest: the loops that skip spaces look at the byte at index `len` without an end check; the byte is taken to be readable and no space, and memory faults are not modelled.
- HttpReader.ReadResponse: the same holds for the spaces before the status.
- HttpReader.PhrParseRequest: the byte at index `len` as for `ReadRequest`; the method, path and minor version a failed call leaves behind are not specified.
- HttpReader.PhrParseResponse: the byte at index `len` as for `ReadRequest`; the minor version, status and reason a failed call leaves behind are not specified.
- HttpReader.PhrParseHeaders: which fields a failed call has already written is only bounded (inside the buffer, at most `max_headers`), not determined.
- HttpContentLength.AddUpDigits: signed overflow, undefined in C++, is modelled as 32-bit wrap-around.
- ChunkedDecoder.Decoder.Decode: the `assert` for a corrupt state is not modelled; the precondition is the invariant every call keeps.
- HttpShortcut.ShortcutLossless: equality is stated for successful parses; on errors `HttpShortcut.ShortcutDiffers` says when the answers differ.
- JsonPrint.Printer.Stringify: the replacer argument and the error for a malformed one are left out.
- JsonRead.RoundTrip: numbers are their printed text (floating-point formatting is not modelled); `toJSON`, replacers, dates, cyclic objects and indent strings that are not white space are left out. Keys of an object are a list in the order in which they are printed.
- JsonFilter.FilterExactly: what `eval` makes of an accepted text, and the reviver, are left out.
- TemplateTheorem.GeneratorsAgree: lines with placeholders are those in which every `}` closes a placeholder, all `$_S{..}` come before any `${..}`, and the text holds no backslash. Expressions are opaque text with a value, equal in both programs; they hold no `$`, `}`, quote or newline (a quote is escaped by both generators and so leaves no C++ expression). Directives hold no quote for the same reason. `#elseif` has no meaning of its own here, only in `TemplateTheorem.AgreeOnAnyDirective`. On other lines nothing is claimed about the emitted text; what is proved for all lines is when the generators end and which control statements they give.
- TemplateHangLine.SweptIff: a placeholder behind the loose brace that is ended by one which stands in front of it too, and a quoted name with a backslash right before a dollar sign in front, are left to `TemplateHang.HangsIff`, whose condition follows the replacements made in front of the brace. The first kind depends on their order: they may make two equal placeholders differ.
- TemplateHangLine.HangsIfGlued: the same.
- TemplateHangLine.LineHangsIff: the same.
- TemplateHangLine.WithoutTextSlots: the same.
- TemplateEnds.NeverEndsIff: the second loop is judged on the line that the first one leaves; `TemplateEnds.NeverEndsInOrder` and `TemplateHangLine.WithoutTextSlots` judge the line itself, for well-formed placeholders and for lines without `$_S{`.
- TemplateBraces.BracesBalance: braces inside the code of directives must close there, and names of placeholders hold none; of the declarations made for `#declare` nothing is counted.
- TemplateBraces.BalancedText: the same for the code of directives.
- TemplateGenerate.GenerateTempCd: gives the statements appended to the function body; the function header, the declarations and casts and the deletes made for `#declare` are left out.
- TemplateGenerate.GenerateTempCdFast: the same.
- Reading template files, and the C++ meaning of `#define` code and directive conditions.
- The copy of the parser under `src/modules/common` with lazy header parsing, and the callers of the parsers.
- Configuration, dispatch, security and session code, and all server, process and network glue.
