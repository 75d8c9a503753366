# BitLink, verified

A Dafny model of the parts of BitLink, a C++ link shortener and web server, that are written by hand:
its configuration language, the QR code image encoder, HTTP framing and request parsing, form and multipart
parsing, the JSON builder and formatter, the URL normaliser, the store behind the two services, and the CRUD
handler over a file system. `dafny verify dfyconfig.toml` checks everything.

Code that works in place is modelled by classes and methods with loops. Each is proved equal to a
specification function, or to a relation between the states before and after, and the lemmas prove what the
code is for about those functions.

| files | what they hold |
|---|---|
| `ConfigTree`, `ConfigLexer`, `ConfigGrammar`, `ConfigRoundTrip`, `ConfigTexts`, `ConfigLayout`, `ConfigParser` | the configuration tree and printer; the tokenizer; the block parser as a transition system; the round trips; what every text means, spelled out in pieces; the lines of a printout; the stream, heap tree, tokenizer and parser as they run |
| `Bytes`, `Crc32`, `Zlib`, `Png`, `Base64`, `CheckValues`, `QrImage` | big-endian words and XOR; the polynomial CRC and its table; Adler-32 and stored blocks; chunks and scan lines; base64; the constants of all these by their standards; upscaling and the whole data URL |
| `Text`, `Session`, `Request`, `Framing`, `ClientRequest` | searching in strings; the session as a state machine over reads; the request parser; when the announced length is the one both use; a request from the client's words to the parsed fields |
| `FormCodec`, `FormTexts`, `Multipart`, `MultipartLf` | percent coding and forms; what every text decodes to; the multipart scanner; bodies with bare line feeds |
| `Decimal`, `JsonNumber`, `Json`, `JsonRoundTrip`, `JsonFormat`, `JsonMeaning`, `JsonLayout`, `JsonBuilder` | numerals; the numbers of RFC 8259; JSON text and a reader for it; the round trip in any spacing; the formatter; why it keeps every value; the white space it writes; the builder |
| `Url`, `UrlPass`, `UrlComponents`, `UrlBrackets`, `UrlValidator` | rewriting by positions; one pass and a second one over the parts of any text; what they do to components; the same for IPv6 hosts; validation |
| `LinkStore`, `Services`, `StoreRuns` | tables, disk and their meaning; the two services; runs of calls |
| `FakeFileSystem`, `ApiHandler`, `CrudRefinement`, `CrudReplies` | the three maps; the handler; its refinement of one map; what it answers |
| `Wrappers`, `Sequences` | the option type; regrouping of concatenations |

Draws of random numbers, failures of the database and the disk, the matrix of a QR code, the listing text of
a directory and the checks on a normalised URL are parameters. Strings are sequences of characters that stand
for bytes. Integer widths are written out where the code relies on them: 32-bit words in CRC-32, Adler-32,
base64 and PNG, 16-bit block lengths, and 64-bit sizes in the framing of requests.

Where the code differs from what its comments or tests suggest, the model follows the code:

- The configuration tokenizer reports the end of the file for a bare word that is not finished, and drops the
  word (`src/config_parser.cc:186-192`): `ConfigRoundTrip.LastWordIsLost` and, with the input `a;it's`,
  `ConfigRoundTrip.UnfinishedWord`. An escaped quote loses its backslash, so such a tree does not survive
  printing; `ConfigRoundTrip.EscapeIsLost` gives the input, and `ConfigRoundTrip.ParseThenPrint` says exactly
  which trees survive.
- A request line may be a method alone: a line feed right behind it is accepted, because the session looks for the
  method and a blank in the first line followed by ` HTTP/1.1` (`src/session.cc:68-73`). `Session.Refused` says
  exactly which requests are answered 400.
- A `Content-Length` header is ignored when it is the last header line, because its value must be followed by a
  line feed inside the header block (`src/session.cc:103-113`). `Framing.LengthHonoured` says exactly when the
  announced length counts, and `Framing.BodyDropped` gives a request that is dispatched without its body. The
  session takes the key where it first stands, be it inside another header's name, and the line parser the last
  line that begins with it; `Framing.LengthsAgree` says exactly when both read the same number, and
  `Framing.LengthsDisagree` gives a request of which three of five announced bytes are handed over.
- Deflating empty data writes no block (`src/utils/qr_generator.cc:250`), which is not a valid stream:
  `Zlib.InflateDeflate` holds exactly for data that is not empty.
- The URL normaliser looks for `@`, `:` and `/` beyond the component they belong to
  (`src/utils/url_validator.cc:337-343`, `378`, `495-504`). `UrlComponents.NormalizeIsByComponent` says exactly
  when each component comes out normalised on its own, with `http://a.co?a/b` and `http://A.co?q@x` as inputs where
  it does not; `UrlComponents.NormalizeTwice` says exactly when a second pass changes the URL again, as it does
  `http://a.co/x:80/y:80/`. IPv6 hosts keep their capitals and default ports: `UrlBrackets.BracketedIsByComponent`
  and `UrlBrackets.BracketedTwice` say exactly when such a URL comes out component by component and when a second
  pass changes it, with `http://[2001:DB8::1]:80/` and `http://[2001:db8::1]/@x:80/` as inputs.
- The multipart parser looks for `filename=` and `Content-Type:` inside the names it is sent
  (`src/utils/http_parser.cc:122`, `304`). `Multipart.ParseDistinct` says exactly which names are read back;
  `Multipart.FiledAsFile` gives a field, named `filename=x`, that is filed as a file.
- The JSON formatter counts brackets without matching them, so padding can be asked for with a negative length
  (`src/utils/json_builder.cc:360-365`): `JsonFormat.FormatReturns` says exactly when it returns.
- A `PUT` on a collection writes a file in the place of the directory (`src/handlers/api_handler.cc:63-82`), and a
  `POST` to a path with a slash writes a file that no entity and id name. `CrudRefinement.StaysDescribed` shows that
  these are the only requests after which no simple map describes the files; `CrudRefinement.CollectionOverwritten`
  gets there from the empty file system.
- Deleting the link of an upload through the URL service leaves the file on the disk
  (`src/services/url_shortening_service.cc:88-90`), and so do a partial write and clean-ups that fail
  (`src/services/file_upload_service.cc:48-60`, `121-126`). `StoreRuns.StaysClean` says for every call exactly when
  it leaves a file that no link leads to.

## Model

| member | source | states |
|---|---|---|
| ConfigParser.ParseToken | src/config_parser.cc:71-193 | the character loop with its state variable and pushback yields exactly the kind, text and remaining input that the recursive scanner defines, on every input; what it yields over any text is `ConfigTexts.TextLexemes` |
| ConfigParser.InputStream.Get | src/config_parser.cc:76-80 | a read yields the next character and leaves the rest, or fails at the end |
| ConfigParser.InputStream.Unget | src/config_parser.cc:168 | pushing the last character back undoes its read |
| ConfigParser.Parse | src/config_parser.cc:195-297 | parsing into a heap configuration accepts exactly the inputs the grammar accepts (`ConfigTexts.TextParses`), and leaves the old statements followed by the parsed ones in the tree; terminates on every input |
| ConfigParser.HandleToken | src/config_parser.cc:214-290 | each token keeps the invariant that every stack entry is the open child block of the last statement of the entry below it, with everything else closed; it goes on exactly when the transition system does |
| ConfigParser.AddWord | src/config_parser.cc:233-247 | a word opens a statement or extends the last one of the innermost open block and changes no closed object |
| ConfigParser.OpenBlock | src/config_parser.cc:253-261 | a new block becomes the child of the last statement and the new top of the stack |
| ConfigParser.CloseBlock | src/config_parser.cc:262-273 | popping the stack closes the innermost block and everything below it |
| ConfigParser.AtEnd | src/config_parser.cc:274-285 | the end of the file is accepted exactly with a boundary token behind it and one entry on the stack |
| ConfigParser.CheckListen | src/config_parser.cc:219-231 | the word after `listen` is accepted exactly when it is made of digits |
| ConfigParser.NginxConfig.ToString | src/config_parser.cc:24-30 | printing the heap tree gives the text of the tree it represents, at any depth |
| ConfigParser.NginxConfigStatement.ToString | src/config_parser.cc:32-55 | printing a statement gives its indentation, tokens, and block or semicolon |
| ConfigGrammar.RunLexemes | src/config_parser.cc:202-291 | running the parser over lexemes keeps the lexemes of its zipper equal to those consumed, and no statement in it is empty |
| ConfigGrammar.RunRules | src/config_parser.cc:209-284 | while the parser goes on, the depth of the stack is one more than the open braces and the listen rule holds |
| ConfigGrammar.RunConfig | src/config_parser.cc:202-291 | the lexemes of any tree with non-empty statements that obeys the listen rule are taken in, at any depth, and append that tree |
| ConfigLexer.ScanPrintable | src/config_parser.cc:71-193 | a printable token followed by a delimiter is read back exactly |
| ConfigLexer.ScannedBackIsPrintable | src/config_parser.cc:71-193 | only printable tokens are ever read back as themselves |
| ConfigLexer.LexPrintable | src/config_parser.cc:115-157 | every word of a text without backslashes is printable |
| ConfigLexer.UnfinishedIsDropped | src/config_parser.cc:186-192 | text without delimiters behind any text adds no lexeme to it, if it has no quotes or is a bare word |
| ConfigLexer.LexJoins | src/config_parser.cc:71-193 | where only white space stands behind the last token, what follows is read as from the beginning |
| ConfigRoundTrip.ParseAccepts | src/config_parser.cc:195-297 | a text parses to a tree if and only if its lexemes are those of the tree, no statement is empty and the listen rule holds |
| ConfigRoundTrip.ParseIntoAppends | src/config_parser.cc:196-197 | parsing into a configuration that has statements appends what parsing into an empty one gives |
| ConfigRoundTrip.PrintThenParse | src/config_parser.cc:24-55 | for every tree: its printout parses back to it if and only if it is well formed (non-empty statements, printable tokens, listen rule) |
| ConfigRoundTrip.ParseThenPrint | src/config_parser.cc:195-291 | a parsed tree survives printing if and only if its tokens are printable, and always when the input had no backslash |
| ConfigRoundTrip.NormalForm | src/config_parser.cc:24-55 | the printout of what was parsed from backslash-free text is a normal form: it is accepted, has the same tree and prints as itself |
| ConfigRoundTrip.EscapeIsLost | src/config_parser.cc:137-145 | an accepted input with an escaped quote whose tree is not read back from its printout |
| ConfigRoundTrip.LastWordIsLost | src/config_parser.cc:186-192 | so a word that the end of the file leaves unfinished changes neither whether a text is accepted nor its tree: any such text behind any other, and any bare word behind a token boundary |
| ConfigRoundTrip.UnfinishedWord | src/config_parser.cc:186-192 | `a;it's` is accepted, and its last word is not in its tree |
| ConfigTexts.TextLexemes | src/config_parser.cc:71-193 | any text put together of blanks, comments up to either line end, punctuation, bare words and quoted words, with whatever tail the end of the file drops, yields exactly the tokens its pieces mean |
| ConfigTexts.TextPieces | src/config_parser.cc:71-193 | and every text on which the tokenizer reports no error is put together so |
| ConfigTexts.CommentDropped | src/config_parser.cc:158-164 | a comment with either line end behind it, at the beginning or behind any token boundary, changes neither the tokens, nor acceptance, nor the tree |
| ConfigTexts.ListenMeans | src/config_parser.cc:219-231 | the listen rule is that every word right behind the word `listen` consists of digits |
| ConfigTexts.TextParses | src/config_parser.cc:195-297 | so, without reference to the tokenizer, a text parses to a tree if and only if its pieces mean the lexemes of the tree, no statement is empty and numbers follow `listen` |
| ConfigTexts.ParsedIsSpelled | src/config_parser.cc:195-297 | and every text that parses is one of these |
| ConfigLayout.PrintedLines | src/config_parser.cc:24-55 | each line of a printout holds a statement or a closing brace, behind two blanks for every block around it |
| Bytes.WriteUint32Be | src/utils/qr_generator.cc:184-189 | four bytes are appended, most significant first |
| Bytes.ReadWritten | src/utils/qr_generator.cc:184-189 | a big-endian reader gives the word back |
| Crc32.ShiftsLinear | src/utils/qr_generator.cc:199-205 | the polynomial shift is linear over XOR, for any number of steps |
| Crc32.FeedByteIsBits | src/utils/qr_generator.cc:215-217 | one table step is eight steps of the bit-at-a-time CRC |
| Crc32.FeedBytesIsBits | src/utils/qr_generator.cc:211-220 | the table-driven loop over any bytes is the bit-at-a-time CRC over their bits |
| Crc32.DetectsByteChange | src/utils/qr_generator.cc:211-220 | changing any one byte of any data changes its CRC |
| Crc32.CrcTable.Make | src/utils/qr_generator.cc:194-209 | the lazily filled table is correct whenever its flag is set, and filling it sets the flag |
| Crc32.CrcTable.Compute | src/utils/qr_generator.cc:211-220 | the loop over the lazily made table computes the polynomial CRC |
| Zlib.AdlerSnoc | src/utils/qr_generator.cc:288-291 | the running sums modulo 65521 are the closed-form sums of RFC 1950 |
| Zlib.Adler32 | src/utils/qr_generator.cc:284-294 | the loop gives the closed-form checksum with no 32-bit overflow, its halves not overlapping |
| Zlib.PiecesCover | src/utils/qr_generator.cc:250-256 | the blocks hold all the data, there are ceil(n/65535) of them, and exactly the last is final |
| Zlib.InflateDeflate | src/utils/qr_generator.cc:240-282 | an RFC 1950/1951 decoder gives the data back if and only if it is not empty |
| Zlib.SimpleDeflate | src/utils/qr_generator.cc:240-282 | the loop over positions writes exactly that stream, NLEN being the 16-bit complement of LEN |
| Png.ReadWrittenChunk | src/utils/qr_generator.cc:222-238 | a chunk reader that checks lengths and CRCs gives every chunk shorter than 2^31 back |
| Png.CorruptChunkRefused | src/utils/qr_generator.cc:235-237 | and refuses a chunk with any one byte of its type or data changed |
| Png.WritePngChunk | src/utils/qr_generator.cc:222-238 | exactly the bytes of that chunk are appended |
| Png.UnfilterFilter | src/utils/qr_generator.cc:168-173 | removing the filter bytes gives the pixels back |
| Png.DecodeWritten | src/utils/qr_generator.cc:148-182 | a PNG decoder of signature, header, data and end gives the bitmap back while the data chunk stays below 2^31 |
| Png.CreateSimplePng | src/utils/qr_generator.cc:148-182 | the method writes exactly that file |
| Base64.DecodeEncode | src/utils/qr_generator.cc:296-318 | an RFC 4648 decoder gives the bytes back, whatever their number |
| Base64.EncodeLength | src/utils/qr_generator.cc:309-315 | the text has 4*ceil(n/3) characters |
| Base64.PushByte | src/utils/qr_generator.cc:300-307 | although the 32-bit accumulator wraps, its low bits stay the input bits not yet written, and the characters written are those of the encoding |
| Base64.Base64Encode | src/utils/qr_generator.cc:296-318 | the loop with the wrapping accumulator and the padding gives the encoding |
| CheckValues.PolynomialTerms | src/utils/qr_generator.cc:199-205 | the polynomial is the sum of the powers that RFC 2083 lists |
| CheckValues.CrcValues | src/utils/qr_generator.cc:211-220 | two values of the CRC, one of which shows the polynomial |
| CheckValues.AdlerValue | src/utils/qr_generator.cc:284-294 | a value of Adler-32 where both sums have passed 65521 |
| CheckValues.Base64Values | src/utils/qr_generator.cc:296-318 | texts of section 10 of RFC 4648, and the last two characters of the alphabet |
| CheckValues.FileBytes | src/utils/qr_generator.cc:148-182 | the bytes of the signature, the header, the names of the chunks and the end, in every file |
| QrImage.IndexInjective | src/utils/qr_generator.cc:134-140 | different pixels have different indices, so none is written for another |
| QrImage.ModuleSquare | src/utils/qr_generator.cc:136-137 | a coordinate belongs to a module exactly when it lies in that module's square |
| QrImage.QuietZone | src/utils/qr_generator.cc:121-122 | it belongs to no module exactly in the border of four modules |
| QrImage.Scale | src/utils/qr_generator.cc:116-118 | the scale is the largest whole number whose multiple of the matrix fits the size asked for, and 1 where none does |
| QrImage.FillModule | src/utils/qr_generator.cc:133-140 | the two inner loops colour exactly the pixels of one square and stay in bounds |
| QrImage.DrawModules | src/utils/qr_generator.cc:128-142 | after the four nested loops every pixel has the colour of its module, or white outside the code |
| QrImage.SampleUpscaled | src/utils/qr_generator.cc:108-142 | taking one pixel per module recovers the matrix from the upscaled image |
| QrImage.UpscaledShows | src/utils/qr_generator.cc:117-142 | the upscaled image is the picture of the matrix, pixel for pixel: squares of `s` pixels in a white frame of four modules |
| QrImage.MatrixSurvives | src/utils/qr_generator.cc:96-182 | decoding base64, the chunks, the stored blocks and the filters and sampling gives the dark modules back, for every matrix whose data chunk stays below 2^31 |
| QrImage.QrToPng | src/utils/qr_generator.cc:108-146 | the file decodes to an image of `(n + 8) * s` by `(n + 8) * s` pixels, `s` the largest whole number with `n * s` at most the size asked for, and 1 where the matrix is larger; each module is a square of `s` by `s` pixels, black where it is set, in a white frame of four modules; nothing is written for sizes that are not positive |
| QrImage.DataUrl | src/utils/qr_generator.cc:96-106 | behind `data:image/png;base64,` the URL decodes to the file of that picture, and read back it gives the dark modules of the matrix |
| Session.Session.HandleRead | src/session.cc:50-190 | a read accumulates, validates, frames and dispatches exactly as the state machine does, with the 64-bit sum of the expected size; `Session.Refused` and `Session.ExactlyTheFramed` say what that machine answers |
| Session.Session.HandleWrite | src/session.cc:192-210 | a finished write clears the buffer and reads on; an error closes the session |
| Session.MethodDecides | src/session.cc:7-24 | a first line is accepted if and only if it begins with one of `GET`, `POST`, `PUT` and `DELETE`, with a blank or the end of the line behind it |
| Session.Refused | src/session.cc:59-86 | a text is answered 400 if and only if its headers are complete, `HTTP/` stands in it, and it begins with none of the four methods in that way |
| Framing.LengthFound | src/session.cc:95-113 | where the key first stands, the length that `Session.ReadContentLength` computes is the number behind it if a line feed ends its line inside the header block, and 0 if none does |
| Framing.NoLengthFound | src/session.cc:101-107 | without the key in either spelling it is 0 |
| Framing.LengthHonoured | src/session.cc:103-113 | so the announced length counts if and only if another line feed follows in the header block, or it is 0 |
| Framing.LastHeaderIgnored | src/session.cc:103-136 | a request that announces its length on the last header line is dispatched without any of its body |
| Framing.BodyDropped | src/session.cc:103-136 | one such request, with the five bytes it announces and loses |
| Session.PrefixWaits | src/session.cc:59-136 | of a well-framed request every proper prefix waits and the whole is dispatched |
| Session.WholeDispatched | src/session.cc:59-136 | a whole request with its headers ended by CRLFCRLF is dispatched unchanged if and only if it is well framed |
| Session.SplittingDoesNotMatter | src/session.cc:50-203 | over any sequence of framed requests, ended by CRLFCRLF or LFLF, however each is split into reads, the session dispatches exactly those requests in order and answers no 400 |
| Session.ExactlyTheFramed | src/session.cc:50-190 | of any text whatever, every splitting hands it over whole if and only if it is framed: as long as its headers announce, and no earlier LFLF cuts it short before its CRLFCRLF arrives |
| Session.ExactlyTheWellFramed | src/session.cc:50-190 | for headers that end in CRLFCRLF with no LFLF before, that is to be well framed |
| Request.HeadersStop | src/request.cc:54-64 | the header loop stops at the first blank line, of any of its kinds |
| Request.BodyText | src/request.cc:81-91 | joining the remaining lines gives the remaining text less one trailing line feed |
| Request.ParsersAgree | src/request.cc:39-92 | the line parser and the session put the body at the same place if and only if no other kind of blank line comes before the CRLFCRLF |
| Request.ParsersAgreeOnLf | src/request.cc:39-92 | where there is no CRLFCRLF and the session frames by LFLF, they agree if and only if the first blank line is that one |
| Request.ParsersAgreeOnCrlf | src/request.cc:55-92 | so they agree whenever every line feed of the header block follows a carriage return, and the body is those bytes less one trailing line feed |
| Request.BodyOfWellFramed | src/request.cc:81-91 | what the session dispatches has a body of the length the session read, less one trailing line feed |
| Framing.FieldPresent | src/request.cc:54-79 | the line parser has a Content-Length field, in either spelling, if and only if a line of the block begins with that key, and takes it from the last such line |
| Framing.LengthsAgree | src/request.cc:54-79 | wherever the session first finds the key and whichever line the field is from: the number in the field is the length the session frames by if and only if the number behind that line's key is the one behind the first key, or 0 where no line feed ends the first key's line |
| Framing.LengthsAgreeOnOne | src/request.cc:54-79 | where these are the same key, if and only if another header line follows it, or the number is 0 |
| Framing.NothingAnnounced | src/request.cc:54-79 | where the session finds no key, the line parser has no field |
| Framing.BodyHasAnnouncedLength | src/request.cc:81-91 | of every framed request, what is dispatched behind the headers is as long as the field says under that same condition and no other |
| Framing.LengthsDisagree | src/session.cc:95-113 | a request with an X-Content-Length of 3 and a Content-Length of 5 of which three bytes are handed over while the field says 5 |
| Request.Request.ParseRequest | src/request.cc:39-92 | the request line, the headers and the body are those of the specification functions, which `ClientRequest.ParsedAsWritten` reads back from what a client wrote |
| Request.Request.ParseHeaders | src/request.cc:54-79 | the loop over lines fills the header map and stops where the specification does |
| Request.JoinLines | src/request.cc:81-86 | the loop that joins the remaining lines |
| ClientRequest.ParsedAsWritten | src/request.cc:39-92 | of a request line of any number of words, fields `name: value` with any white space between, a blank line and a body, with either line end: method, URI and version are the first three words, empty where words are missing; the header map is the last-wins map of the fields; the body is the body less one trailing line feed |
| ClientRequest.FieldFound | src/request.cc:66-79 | a field is found under its name unless a later one has the same |
| ClientRequest.StoulReads | src/session.cc:110-113 | the conversion of the announced length reads a numeral behind white space up to the first character that is no digit, below 2^64 |
| ClientRequest.SignedLength | src/session.cc:110-113 | it takes a sign, and a minus counts back from 2^64 |
| ClientRequest.LengthIsRead | src/session.cc:95-113 | behind the only key of a block, ended by a line end, the length is the number written there |
| ClientRequest.ServedAsWritten | src/session.cc:50-190 | a request of one of the four methods, with either line end, that announces the length of its body in a field before the last, where the key first stands, or announces nothing and has no body, is handed over whole however it is split into reads, and parsed into the words, fields and body the client wrote; with bare line feeds, while no CRLFCRLF stands in it |
| FormCodec.DecodeEncode | src/utils/http_parser.cc:194-240 | decoding undoes encoding for every byte string |
| FormCodec.Encode | src/utils/http_parser.cc:223-240 | the encoding loop computes the character-wise encoding |
| FormCodec.Decode | src/utils/http_parser.cc:194-221 | the decoding loop, which keeps invalid and truncated escapes, computes the recursive decoding |
| FormCodec.ParseEncoded | src/utils/http_parser.cc:13-47 | parsing '&'-joined encoded pairs gives their last-wins map; pairs with an empty key are dropped |
| FormCodec.ParseFormData | src/utils/http_parser.cc:13-47 | the loop over pieces builds the map of the specification |
| FormTexts.EncodedByte | src/utils/http_parser.cc:223-240 | letters, digits and four marks stand for themselves, a blank is a plus sign, every other byte is a percent sign and its two hexadecimal digits, upper case |
| FormTexts.DecodeTokens | src/utils/http_parser.cc:194-221 | a text of plain characters, plus signs, escapes with digits of either case and broken escapes decodes to the bytes these stand for; plain characters and broken escapes stand for themselves |
| FormTexts.TextTokens | src/utils/http_parser.cc:194-221 | and every text consists of these |
| FormTexts.ParsePieces | src/utils/http_parser.cc:13-47 | a form of pieces with and without an equals sign is parsed into the last-wins map of their decoded names and values, those with an empty name left out |
| FormTexts.TextPieces | src/utils/http_parser.cc:13-47 | and every text consists of such pieces |
| Multipart.ReadName | src/utils/http_parser.cc:277-300 | the quoted name of a disposition header is read back whatever follows it |
| Multipart.ReadFilename | src/utils/http_parser.cc:303-325 | the file name read is the one sent where the keyword is not in the name, and otherwise what follows the keyword there, up to a quote or a semicolon |
| Multipart.ReadContentType | src/utils/http_parser.cc:121-127 | the content type read is the one sent, without the white space around it, where the keyword is in neither name, and otherwise the rest of the line behind the keyword |
| Multipart.ReadHeaderLength | src/utils/http_parser.cc:79-91 | the header block found ends at the blank line the sender wrote |
| Multipart.StoreSent | src/utils/http_parser.cc:103-140 | a part is filed under its name with that file name and type, with the size limits and the dropping of unnamed parts |
| Multipart.ScanOne | src/utils/http_parser.cc:73-149 | one round of the scanner files one part and stops exactly at the closing delimiter |
| Multipart.ParseSerialized | src/utils/http_parser.cc:49-155 | parsing a serialized form files every part so, in order, for any boundary, names and contents the format allows; where the names read back, exactly the parts that were sent |
| Multipart.ParseDistinct | src/utils/http_parser.cc:49-155 | with distinct names and sizes within the limits every part is found as it was sent if and only if every part's names read back: the file name keyword is not in the name, or ends a field's name, or is followed by what happens to be the file name and a semicolon, and the type keyword is in neither name of a file, or is followed by what happens to be the type; nothing else is found |
| Multipart.FiledAsFile | src/utils/http_parser.cc:303-325 | a field of the name `filename=x` is filed as a file |
| Multipart.NoClosingDelimiter | src/utils/http_parser.cc:93-99 | the search for the closing delimiter after the other failed never finds anything |
| Multipart.ParseMultipartForm | src/utils/http_parser.cc:49-155 | on every body the position loop ends, takes only slices in range and fills exactly the maps of the scan |
| Multipart.ParseOnePart | src/utils/http_parser.cc:73-149 | one iteration moves the position strictly forward or ends the loop |
| Multipart.ParseContentDisposition | src/utils/http_parser.cc:267-330 | both parameters, quoted or not, and whether the name was found |
| MultipartLf.ParseLines | src/utils/http_parser.cc:73-149 | a form sent with bare line feeds is parsed as the one with CRLF is, while no CRLFCRLF stands in it |
| MultipartLf.TrimIs | src/utils/http_parser.cc:253-265 | trimming takes off the white space at both ends, all of it and nothing else |
| MultipartLf.DroppedPart | src/utils/http_parser.cc:129-143 | a part is dropped if and only if it has no name, or is larger than 25 MiB as a file or 1 MiB as a field |
| Decimal.DigitsInjective | src/utils/json_builder.cc:29-43 | different numbers have different numerals |
| JsonRoundTrip.ReadEscaped | src/utils/json_builder.cc:287-325 | reading a string as RFC 8259 does undoes the escaping of every string |
| JsonRoundTrip.ReadPrinted | src/utils/json_builder.cc:160-206 | an RFC 8259 reader gives every printed value back, nested to any depth, in compact or indented text |
| JsonBuilder.PutIsUpdate | src/utils/json_builder.cc:13-19 | assigning a field keeps the keys ordered and changes the one key |
| JsonBuilder.EscapeJsonString | src/utils/json_builder.cc:287-325 | the loop escapes character by character |
| JsonBuilder.StringArrayText | src/utils/json_builder.cc:86-94 | the loop renders the array of strings |
| JsonBuilder.IntArrayText | src/utils/json_builder.cc:104-112 | the loop renders the array of integers |
| JsonBuilder.MapText | src/utils/json_builder.cc:122-133 | the loop renders the object of strings |
| JsonBuilder.JsonBuilder.AddString | src/utils/json_builder.cc:13-19 | the field map is updated at that key, or unchanged for an invalid name |
| JsonBuilder.JsonBuilder.AddInteger | src/utils/json_builder.cc:29-43 | likewise for an integer, of either width |
| JsonBuilder.JsonBuilder.AddBool | src/utils/json_builder.cc:65-71 | likewise for a boolean |
| JsonBuilder.JsonBuilder.AddNull | src/utils/json_builder.cc:73-79 | likewise for null |
| JsonBuilder.JsonBuilder.AddStringArray | src/utils/json_builder.cc:81-97 | likewise for an array of strings |
| JsonBuilder.JsonBuilder.AddIntArray | src/utils/json_builder.cc:99-115 | likewise for an array of integers |
| JsonBuilder.JsonBuilder.AddMap | src/utils/json_builder.cc:117-136 | likewise for an object of strings |
| JsonBuilder.JsonBuilder.AddObject | src/utils/json_builder.cc:138-146 | likewise for what another builder holds at that moment, itself included |
| JsonBuilder.JsonBuilder.Build | src/utils/json_builder.cc:160-206 | what is built, compact or pretty, reads back as exactly the fields that were added |
| JsonBuilder.ReadTextBuilt | src/utils/json_builder.cc:160-206 | the same for the texts themselves, and compact text is the compact printing of the object |
| JsonBuilder.PrettyText | src/utils/json_builder.cc:160-206 | pretty text has one member to a line behind two blanks, and nothing between the braces of an empty object |
| JsonBuilder.DataResponse | src/utils/json_builder.cc:242-247 | the wrapped response reads back as the data and the flag |
| JsonFormat.FormatStripped | src/utils/json_builder.cc:327-385 | the formatter's result depends only on the input without white space outside strings, errors included |
| JsonFormat.StripFormatted | src/utils/json_builder.cc:327-385 | the formatter changes nothing but that white space |
| JsonFormat.FormatTwice | src/utils/json_builder.cc:327-385 | formatting is idempotent wherever it returns |
| JsonFormat.FormatAlike | src/utils/json_builder.cc:327-385 | texts that differ only in that white space are formatted alike |
| JsonFormat.FormatReturns | src/utils/json_builder.cc:354-371 | with a positive indentation it returns if and only if no bracket outside strings closes one that is not open, and with a negative one if and only if none opens one more than were closed |
| JsonFormat.FormatReturnsFlat | src/utils/json_builder.cc:354-371 | with the indentation zero it always returns |
| JsonNumber.NumberAhead | src/utils/json_builder.cc:327-385 | a number of RFC 8259, with fraction and exponent, is read the same before anything that does not go on with it |
| JsonFormat.FormatKeepsMeaning | src/utils/json_builder.cc:327-385 | formatting compact JSON lays it out one element to a line, and the result reads back as the same value |
| JsonMeaning.FormatKeepsValue | src/utils/json_builder.cc:327-385 | every text that an RFC 8259 reader accepts, with fractions, exponents and escapes of any code unit, however it is spelled and laid out, is formatted, and to a text of the same value |
| JsonLayout.FormattedIsLaidOut | src/utils/json_builder.cc:327-385 | of any text whatever: outside strings the formatter writes no white space but one blank behind a colon and, behind an opening bracket or a comma and in front of a closing one, a line end with the blanks of its level |
| JsonLayout.CompactIsWhole | src/utils/json_builder.cc:160-206 | compact text has no white space outside strings |
| JsonFormat.FormatJson | src/utils/json_builder.cc:327-385 | the loop with its flags computes that function |
| UrlPass.PassTwice | src/utils/url_validator.cc:319-390 | for any text that splits into scheme, user information, host and the rest, a second pass changes nothing if and only if no default port is found in what the first left and what is taken for the domain is lowered already |
| UrlPass.NormalizedOnce | src/utils/url_validator.cc:319-390 | so for any URL at all, well formed or not, whose scheme has no colon, question mark or number sign |
| UrlComponents.NormalizeIsByComponent | src/utils/url_validator.cc:319-390 | for every well-formed URL the rewriting is component by component (scheme and host in lower case, one trailing dot, default port and fragment dropped, empty path a slash) if and only if no slash of the query is taken for a path, no colon or '@' hides or fakes the port, and the host is found or, where an '@' of the query hides it, it and the text taken for it are lowered already |
| UrlComponents.QueryTakenForPath | src/utils/url_validator.cc:377-387 | `http://a.co?a/b` stays as it is, where component by component it would get its slash |
| UrlComponents.HostOverlooked | src/utils/url_validator.cc:336-343 | `http://A.co?q@x` keeps its host in upper case |
| UrlComponents.NormalizeTwice | src/utils/url_validator.cc:319-390 | for every well-formed URL a second pass changes nothing if and only if no default port is left where it was looked for, and the host has no second trailing dot or, where an '@' of the query hides it, what is taken for it is lowered already |
| UrlComponents.PortCutTwice | src/utils/url_validator.cc:486-518 | `http://a.co/x:80/y:80/` becomes `http://a.co/x/y:80/`, and that `http://a.co/x/y/` |
| UrlComponents.PlainUrl | src/utils/url_validator.cc:319-390 | a URL of `http` or `https` in any case, a host with capitals or a trailing dot, with or without its default port 80 or 443, comes out in small letters, without dot and port, with the path `/` where it had none |
| UrlBrackets.BracketedUntouched | src/utils/url_validator.cc:336-387 | a URL with an IPv6 host keeps host, capitals and port, and only its scheme, an empty path and the fragment are rewritten, if and only if no text behind an '@' of the path or query is taken for a domain in capitals or for a default port |
| UrlBrackets.BracketedIsByComponent | src/utils/url_validator.cc:319-390 | so it is rewritten component by component if and only if moreover its host is in lower case already, it has no default port and no slash of the query is taken for a path |
| UrlBrackets.BracketedTwice | src/utils/url_validator.cc:319-390 | for every URL with an IPv6 host a second pass changes nothing if and only if no default port is left behind such an '@' and what is taken for the domain there is lowered already |
| UrlBrackets.CapitalsStay | src/utils/url_validator.cc:345-359 | `http://[2001:DB8::1]:80/` stays as it is |
| UrlBrackets.PathLosesPort | src/utils/url_validator.cc:494-504 | `http://[2001:db8::1]/@x:80/` becomes `http://[2001:db8::1]/@x/` |
| UrlValidator.AcceptedTwice | src/utils/url_validator.cc:41-66 | whatever the checks on the normalised text, any accepted URL whose scheme has no colon, question mark or number sign is accepted again and unchanged if and only if a second pass changes nothing in that sense |
| UrlValidator.AcceptedAgain | src/utils/url_validator.cc:41-66 | whatever the checks on the normalised text, an accepted well-formed URL is accepted again and unchanged if and only if it is stable in that sense, and is normalised component by component if and only if its guards hold |
| UrlValidator.ChangesAgain | src/utils/url_validator.cc:41-66 | `http://a.co/x:80/y:80/` is accepted, and the next validation changes what it gave |
| UrlValidator.NormalUrlChars | src/utils/url_validator.cc:319-390 | normalising brings in no character that a URL may not have |
| UrlValidator.SchemeAssumed | src/utils/url_validator.cc:57-61 | a text that is not empty and has no `://` is validated exactly as the same text behind `https://` |
| UrlValidator.UrlCharIs | src/utils/url_validator.cc:545-565 | the characters a URL may have are the visible ones of ASCII less nine |
| UrlValidator.NormalizeUrl | src/utils/url_validator.cc:319-390 | the method that reassigns the text step by step computes the normalisation |
| UrlValidator.LowerSchemeAndHost | src/utils/url_validator.cc:328-372 | its first rewriting |
| UrlValidator.RemovePort | src/utils/url_validator.cc:486-518 | its second rewriting, with the searches over all the text behind the scheme |
| UrlValidator.ValidateAndNormalize | src/utils/url_validator.cc:41-66 | the loop over characters, the default scheme, the normalisation and the checks decide the result |
| LinkStore.Database.InsertLink | src/database/sqlite_database.cc:75-80 | the primary key: a code that exists, or an empty one, is not inserted and nothing changes |
| LinkStore.Database.DeleteLink | src/database/sqlite_database.cc:83-91 | a link goes with its clicks and leaves all others |
| LinkStore.Database.RecordClick | src/database/sqlite_database.cc:83-91 | a click is inserted only for a link that exists |
| LinkStore.PathsInjective | src/services/file_upload_service.cc:146-161 | eight-character codes never share a path, whatever the file names and whether or not the directory could be made |
| LinkStore.PathShape | src/services/file_upload_service.cc:146-161 | a file is stored under its code, an underscore and its name, in the directory of the first two characters of the code, or in the upload directory where that could not be made |
| LinkStore.DistinctPaths | src/services/file_upload_service.cc:146-161 | distinct live file links have distinct paths |
| LinkStore.ForeignFile | src/services/file_upload_service.cc:48-60 | what happens to the file of a code without a link leaves the meaning of the store unchanged |
| LinkStore.FirstFreeIs | src/utils/slug_generator.cc:64-83 | the code generated has eight letters and digits and no link has it, and there is none exactly when every attempt drew a taken one |
| LinkStore.CharsetComplete | src/utils/slug_generator.cc:7-10 | every letter of either case and every digit can be drawn |
| LinkStore.DeletedLink | src/services/url_shortening_service.cc:88-90 | deleting a link removes exactly its entry from the meaning of the store |
| LinkStore.LinkDeletedOrphans | src/services/url_shortening_service.cc:88-90 | where every file has its link, deleting a link leaves it so if and only if the link is to a URL |
| Services.GenerateCode | src/utils/slug_generator.cc:21-34 | the loop appends the drawn characters |
| Services.GenerateUniqueCode | src/utils/slug_generator.cc:49-83 | the retry loop returns the first drawn code that does not exist, or nothing |
| Services.LastPartHidden | src/services/url_shortening_service.cc:92-114 | what either service stores of an address does not depend on its last part: two addresses that differ in it at most are stored as the same text |
| Services.TruncatedIsCut | src/services/url_shortening_service.cc:92-114 | what is behind the last dot, or else the last colon, is replaced, and nothing is kept of any other address |
| Services.CutIs | src/services/url_shortening_service.cc:92-114 | so it is `front.0` of `front.last` with no dot in `last`, `front::0` of `front:last` with no dot at all and no colon in `last`, and `0.0.0.0` without dot and colon |
| Services.ShortUrlEnds | src/services/url_shortening_service.cc:116-123 | a short URL ends in the mark, `/r/` or `/f/`, and the code, behind the base without one trailing slash |
| Services.UrlShorteningService.ShortenUrl | src/services/url_shortening_service.cc:10-52 | exactly when the URL is valid, a code is free and the row is stored, that code becomes a new link to the normalised URL; otherwise nothing changes |
| Services.UrlShorteningService.ResolveCode | src/services/url_shortening_service.cc:54-66 | URL links resolve to their URL, and nothing else resolves |
| Services.UrlShorteningService.RecordAccess | src/services/url_shortening_service.cc:68-82 | exactly when the code exists and the row is stored, the clicks are the old ones and one more, with the code, the user agent, the referrer and the address cut as `Services.CutIs` says; otherwise nothing is added |
| Services.UrlShorteningService.GetStatistics | src/services/url_shortening_service.cc:84-86 | the total is the number of accesses of the live link |
| Services.UrlShorteningService.DeleteLink | src/services/url_shortening_service.cc:88-90 | the entry goes, whatever its kind |
| Services.FileUploadService.UploadFile | src/services/file_upload_service.cc:14-83 | exactly when the file is accepted, a code is free, the file is written and the row is stored, that code becomes a new link to the bytes; every failure, a partly written file included, leaves all other links as they were |
| Services.FileUploadService.GetFilePath | src/services/file_upload_service.cc:85-97 | the path of a live file link, where its bytes are |
| Services.FileUploadService.RecordFileAccess | src/services/file_upload_service.cc:129-144 | the same for a file link |
| Services.FileUploadService.DeleteFile | src/services/file_upload_service.cc:113-127 | the link of an upload goes first; the answer is yes only when its file is gone too |
| StoreRuns.Serve | src/services/file_upload_service.cc:14-144 | every call to either service over the shared tables and disk is one step of a map from codes to contents and accesses, and of the rows stored of visits |
| StoreRuns.ServeAll | src/services/url_shortening_service.cc:10-90 | so is every run of calls, and the tables and the disk stay consistent |
| StoreRuns.SameRows | src/services/url_shortening_service.cc:68-114 | two runs whose visitors differ in the last parts of their addresses at most store the same rows |
| StoreRuns.StaysClean | src/services/file_upload_service.cc:14-127 | where every file has its link, a call of either service leaves it so if and only if it does not write a file, whole or in part, that it neither links nor removes, and does not delete the link of a file that stays |
| StoreRuns.RunStaysClean | src/services/file_upload_service.cc:14-127 | so in every run all files have their links after every call if and only if no call does that |
| StoreRuns.MadeStays | src/services/url_shortening_service.cc:54-86 | in every run a returned code keeps its content until it is deleted, and its accesses are exactly the successful ones since |
| StoreRuns.MadeIsAnswered | src/services/url_shortening_service.cc:54-86 | so it resolves to the normalised URL or the uploaded bytes, and the total reported is exact |
| FakeFileSystem.FileSystem.OverwriteFile | src/fake_file_system.cc:22-27 | the file, its mark and its directory are recorded |
| FakeFileSystem.FileSystem.Exists | src/fake_file_system.cc:29-31 | a path exists as a file or as a directory |
| FakeFileSystem.FileSystem.Remove | src/fake_file_system.cc:41-49 | a file goes from all three maps; nothing else changes |
| FakeFileSystem.DirectoryOf | src/fake_file_system.cc:8-12 | the directory of a path is what stands before its last slash |
| ApiHandler.TakenAreFew | src/handlers/api_handler.cc:47-50 | finitely many names cannot take more ids than there are names |
| ApiHandler.FreeId | src/handlers/api_handler.cc:47-50 | the search for an id ends at the least free one |
| ApiHandler.ApiHandler.Post | src/handlers/api_handler.cc:43-61 | the loop over ids terminates and writes the body under that id |
| ApiHandler.ApiHandler.HandleRequest | src/handlers/api_handler.cc:23-172 | every request changes the three maps and answers as specified, error answers included |
| CrudRefinement.FilesDistinct | src/handlers/api_handler.cc:39-40 | different items are different files |
| CrudRefinement.FreeIdIsLeast | src/handlers/api_handler.cc:47-50 | the id found in the maps is the least free one of the simple map |
| CrudRefinement.RespondRefines | src/handlers/api_handler.cc:39-158 | every create, read, update, delete and list request does to the three maps what its operation does to one map from entity and id to body, and answers accordingly |
| CrudReplies.StatusOf | src/handlers/api_handler.cc:30-172 | the status of the answer to every request over any files |
| CrudReplies.CreatedNamesId | src/handlers/api_handler.cc:57-60 | the body of a create is JSON that reads back as the id |
| CrudReplies.CreatedThenRead | src/handlers/api_handler.cc:43-122 | over any files whatever, a POST to a collection writes its body to one new file, names its id, and a GET under that id answers the body |
| CrudReplies.Answered | src/handlers/api_handler.cc:39-158 | over files that a simple map describes: 201 with the id stored, the body read, 404 exactly where the item is missing, 200 otherwise |
| CrudRefinement.Serve | src/handlers/api_handler.cc:23-172 | so does every run of requests from an empty file system |
| CrudRefinement.CreatedIsReadBack | src/handlers/api_handler.cc:43-122 | in every run a created id was free, and reading it gives its body back until it is updated or deleted |
| CrudRefinement.StaysDescribed | src/handlers/api_handler.cc:39-158 | for every request over maps that a simple map describes, some simple map describes the result if and only if it is neither a PUT on an existing collection nor a POST to a path with a slash |
| CrudRefinement.CollectionOverwritten | src/handlers/api_handler.cc:63-82 | from the empty file system a POST and a PUT leave maps that no simple map describes |

## Left out

- Sockets, accept loops, worker threads, logging, signal handling and `main`: plumbing. A session is a state machine over read and write events.
- ConfigParser.Parse: does not say what the tree holds after a rejection, because the code leaves whatever was built and its callers discard it; reading the file by name (`src/config_parser.cc:299-310`) is not modelled.
- `MAX_CONFIG_DEPTH` (`src/config_parser.cc:22`): declared and never used.
- libqrencode: the matrix is an arbitrary input, and the services' QR field is not modelled.
- QrImage.QrToPng: asks that `total_size * total_size` fits an int, as every width up to 46340 does; what the code does when that product overflows is not modelled.
- ApiHandler.ApiHandler.Post: the id is an unbounded integer; more than 2^31 files in one collection are not modelled.
- The text of a directory listing (`src/fake_file_system.cc:51-60`), which depends on the order of an unordered map: a parameter.
- Runs of requests to nested collections (`POST /api/A/B`): one such request leaves the refinement, by `CrudRefinement.StaysDescribed`, because a file and a directory may then share a path; what later requests do to such files is said only by `ApiHandler.ApiHandler.HandleRequest`.
- UrlValidator.Validate: the checks on the normalised text (`src/utils/url_validator.cc:63-202`), among them a regular expression, a block list and IP address rules, are a parameter; acceptance of the output again does not depend on them.
- UrlComponents.NormalizeIsByComponent: texts that are not the join of well-formed components, such as two '@' in front of the path, have no components to compare with; `UrlValidator.NormalizeUrl` and `UrlPass.NormalizedOnce` cover them. IPv6 hosts have `UrlBrackets.BracketedIsByComponent`.
- Session.SplittingDoesNotMatter: a client that sends its next request before the answer to the last one is not covered, since the code then drops bytes.
- `JSONBuilder::add(double)`, `add_raw`, `clear` and `is_valid_json`: floating point, text taken as it is, an assignment and a superficial check.
- `Request::get_header` and `get_file_path` (`src/request.cc:14-37`, `94-109`): a search of the parsed map that ignores case, and a suffix of the URI.
- MultipartLf.ParseLines: a body with bare line feeds and a CRLFCRLF somewhere in its contents is not covered, since the header block is then taken to end there; `Multipart.ParseMultipartForm` covers it.
- `HTTPParser::extract_boundary` and `extract_quoted_value`: the same searches once more.
- Multipart.ParseSerialized: names with quotes or line ends are not covered; the format the clients send has no way to write them.
- Validation and sanitizing of uploaded files (`src/utils/file_validator.cc`): their results are parameters.
- Services.FileUploadService.UploadFile: calls are atomic. Two overlapping uploads that draw the same code are not covered: the clean-up at `src/services/file_upload_service.cc:55-57` assumes that the path is its own.
- Statement handles, error codes, timestamps and daily counts of the database (`src/database/sqlite_database.cc`): a call either takes effect within the constraints of the schema or does not.
- `StaticFileHandler`, `RealFileSystem`, MIME tables, HTML pages, the handler registry and dispatcher, `ServerConfig` and the small handlers: file system calls, lookup tables or facts of a single branch.
