# TinyDNS wire codec in Dafny

A model of the DNS message codec of TinyDNS (`packages/protocol`) and of the
flag-word codec and fixed reply of its `DefaultResolver`
(`packages/resolver`), with proofs about them. The codec follows the layout of
RFC 1035: names as in section 3.1, the header as in section 4.1.1, questions as
in section 4.1.2 and resource records as in section 4.1.3. The two DNSSEC bits
follow section 3.2 of RFC 4035. There is no name compression.

Modules, one per file:

- `Wire` (`wire.dfy`): byte, 16-bit and 32-bit values, big-endian fields, the
  codec's error outcomes, and copying bytes into an `array` buffer.
- `DnsBasic` (`basic.dfy`): the record shapes and the name codec
  `domainToUint8Array` / `uint8ArrayToDomain`, each as a method with loops,
  proved against a specification function (`EncodeName`, `DecodeName`).
- `DnsRequest` (`request.dfy`): `parseDNSQuestion` and `parseDNSRequest`, with
  the question cursor as the source has it.
- `DnsResponse` (`response.dfy`): `encodeDNSResponse` and its inner encoders.
  Each section gets a size pass, then a fill pass writing field by field into a
  buffer of exactly that size. The header and the four sections are then copied
  into one result buffer.
- `DnsRoundTrip` (`roundtrip.dfy`): the response encoder read back by the request
  parser.
- `DefaultResolver` (`resolver.dfy`): `encodeFlags` as a sequence of `|=`
  updates on a `bv16`, `decodeFlags`, and `resolve`.

Quirks of the source are kept as they are and stated as lemmas:

- `uint8ArrayToDomain` reports a length without the terminator, while
  `domainToUint8Array` reports one with it.
- The request cursor moves `n + 4` bytes past a question that occupies
  `n + 5`. Only the first question is read from its true start
  (`DnsRequest.QuestionCursor`). A later question then either fails to parse
  or is misread (`DnsRequest.SecondQuestionMisread`,
  `DnsRequest.SecondQuestionShifted`).
- Authority and additional data strings are written as domain names.
- Answer data lengths wrap modulo 65536 in the RDLENGTH field.

The enumerations `DNSQuestionType` and `DNSQuestionClass` are not part of this
model. They are parameters of type `Enum`: a table from key to code and one
from code to key. A missing entry stands for JavaScript's `undefined`.

## Model

| member | source | states |
|---|---|---|
| Wire.Byte | packages/protocol/src/protocol/basic.ts:74 | a number stored in a `Uint8Array` cell is kept modulo 256, and unchanged when it is already a byte |
| Wire.BE16 | packages/protocol/src/protocol/response.ts:22-28 | a 16-bit field is two bytes, and reading them big-endian gives the value back |
| Wire.BE32 | packages/protocol/src/protocol/response.ts:79 | a 32-bit field is four bytes, and reading them big-endian gives the value back |
| Wire.WriteBytes | packages/protocol/src/protocol/response.ts:45-47 | copying bytes at an offset puts them right after the kept prefix and leaves the rest of the buffer unchanged |
| Wire.ReadU16 | packages/protocol/src/protocol/request.ts:24-28 | `getUint16` reads the byte at the offset as the high byte and the next one as the low byte |
| Wire.ReadU32 | packages/protocol/src/protocol/response.ts:79 | a 32-bit big-endian value is the 16-bit word at the offset as its high half and the next word as its low half |
| Wire.Write3 | packages/protocol/src/protocol/response.ts:44-51 | a question's three fields land one after the other at the record's offset; the bytes before and after the record keep their values |
| Wire.Write6 | packages/protocol/src/protocol/response.ts:71-90 | a record's six fields land one after the other at the record's offset; the bytes before and after the record keep their values |
| DnsBasic.Split | packages/protocol/src/protocol/basic.ts:56 | `split(".")` always yields at least one piece, and no piece contains a dot; with `JoinSplit` this fixes the pieces uniquely |
| DnsBasic.JoinSplit | packages/protocol/src/protocol/basic.ts:56 | joining the pieces of a split with dots gives back the original text |
| DnsBasic.SplitJoin | packages/protocol/src/protocol/basic.ts:99 | `join(".")` of one or more dot-free labels, split again at the dots, gives back those labels |
| DnsBasic.NameOf | packages/protocol/src/protocol/request.ts:15-16 | the reverse enumeration lookup is `undefined` exactly for an unmapped code, and in a consistent enumeration the key it finds maps back to that code |
| DnsBasic.NonEmpty | packages/protocol/src/protocol/basic.ts:59-60 | the labels kept by the encoder are no more than the pieces, and none of them is empty |
| DnsBasic.PushLabel | packages/protocol/src/protocol/basic.ts:60-68 | one turn of the label loop appends the label's length and then its character codes, and nothing for an empty label |
| DnsBasic.DomainToUint8Array | packages/protocol/src/protocol/basic.ts:55-77 | the nested loops produce exactly `EncodeName(domain)`, and the returned length is that array's length |
| DnsBasic.LabelsNumbersSize | packages/protocol/src/protocol/basic.ts:59-69 | the numbers pushed for some labels count one length byte plus the characters of each non-empty label |
| DnsBasic.EncodeNameSize | packages/protocol/src/protocol/basic.ts:71-76 | an encoded name is as long as the label-by-label count plus one, and its last byte is the terminator 0 |
| DnsBasic.EmptyNames | packages/protocol/src/protocol/basic.ts:56-72 | empty labels contribute nothing, so `""` and `"."` both encode to `[0]` |
| DnsBasic.NumbersEncoded | packages/protocol/src/protocol/basic.ts:59-72 | the pushed numbers hold each non-empty label as its length followed by its character codes, in order, then a 0 |
| DnsBasic.EncodeNameNumbers | packages/protocol/src/protocol/basic.ts:74 | for labels shorter than 256 with character codes below 256, the bytes are the pushed numbers unchanged |
| DnsBasic.Uint8ArrayToDomain | packages/protocol/src/protocol/basic.ts:79-100 | the `while` loop returns exactly `DecodeName(a)`: the labels read from index 0 up to a zero length byte, and their byte count; no result when that zero byte cannot be reached |
| DnsBasic.ReadLabel | packages/protocol/src/protocol/basic.ts:90-95 | the inner loop turns each of the label's bytes into the character with that code |
| DnsBasic.DecodeNameTerminator | packages/protocol/src/protocol/basic.ts:84-88 | a decode that succeeds stopped on a zero byte inside the input, at the reported length, so the terminator is not counted |
| DnsBasic.SourceLoopHangs | packages/protocol/src/protocol/basic.ts:84-96 | the loop as written, with a read past the end giving `undefined` and the offset turning NaN, never reaches `break` on any input that `DecodeName` rejects, however many turns it takes |
| DnsBasic.SourceLoopBreaks | packages/protocol/src/protocol/basic.ts:84-96 | on every input that `DecodeName` accepts, the loop as written reaches `break` within as many turns as the input has bytes, so the model's `None` marks exactly the inputs on which it hangs |
| DnsBasic.UnterminatedNameHangs | packages/protocol/src/protocol/basic.ts:84-96 | on the two bytes `[1, 97]` (a one-byte label and no terminator) the loop as written never breaks |
| DnsBasic.DecodeNameIgnoresSuffix | packages/protocol/src/protocol/basic.ts:83-97 | bytes after the terminator do not change the decoded name or length |
| DnsBasic.LabelsLengthNumbers | packages/protocol/src/protocol/basic.ts:88-96 | the decoded length of the kept labels equals the number of bytes the encoder pushed for them |
| DnsBasic.DecodeEncodeName | packages/protocol/src/protocol/basic.ts:55-100 | for an encodable name followed by anything, decoding its encoding yields the non-empty labels joined by dots, with a length one less than the encoded length |
| DnsBasic.DecodeEncodeCanonicalName | packages/protocol/src/protocol/basic.ts:55-100 | a name with no empty label decodes back to itself |
| DnsRequest.ParseDNSQuestion | packages/protocol/src/protocol/request.ts:13-19 | the name is decoded from the offset; type and class are read at `offset + n + 1` and `offset + n + 3` and looked up in the enumerations; the length is `n + 4`; a read past the end is an error |
| DnsRequest.ParseDNSQuestions | packages/protocol/src/protocol/request.ts:27-35 | the loop parses `count` questions from byte 12, each starting where the previous reported length ends, and stops at the first error |
| DnsRequest.ParseDNSRequest | packages/protocol/src/protocol/request.ts:21-38 | identifier, flags and question count are the big-endian words at 0, 2 and 4; then the questions are parsed |
| DnsRequest.ParseRequestHeader | packages/protocol/src/protocol/request.ts:24-37 | a parsed request carries the raw words at bytes 0 and 2, and has as many questions as the word at byte 4 |
| DnsRequest.ZeroQuestions | packages/protocol/src/protocol/request.ts:22-30 | with a question count of 0, any input of at least 6 bytes parses, even one shorter than a header |
| DnsRequest.QuestionCursor | packages/protocol/src/protocol/request.ts:14-18 | a parsed question's reported length stops one byte short of its end, on the low byte of the class word |
| DnsRequest.ParseQuestionIgnoresSuffix | packages/protocol/src/protocol/request.ts:13-19 | bytes appended after a question that parses do not change it |
| DnsRequest.ParseRequestIgnoresSuffix | packages/protocol/src/protocol/request.ts:21-38 | trailing bytes, such as the answer sections, never change a request that parses |
| DnsRequest.ParseRequestIgnoresCounts | packages/protocol/src/protocol/request.ts:21-38 | the answer, authority and additional counts (bytes 6 to 11) are never read: replacing them never changes the outcome, whatever the question count |
| DnsRequest.SingleQuestion | packages/protocol/src/protocol/request.ts:28-37 | a count of 1 followed by a question that parses gives a request with that one question |
| DnsRequest.SecondQuestionMisread | packages/protocol/src/protocol/request.ts:34 | for the message with two copies of the question "a", type 1, class 1, the second parse starts one byte early, on the class's low byte 1, and the request fails with an unterminated name, although the second copy read from its true start parses |
| DnsRequest.SecondQuestionShifted | packages/protocol/src/protocol/request.ts:34 | with class 0x0100 instead, the same misaligned second parse succeeds: it reads the class's low byte 0 as an empty name and yields a second question with type code 0x0161 and class code 0 that the message never held |
| DnsResponse.CodeOf | packages/protocol/src/protocol/response.ts:50-51 | a missing or unmapped key is written as 0; in a consistent enumeration the code written for a key looks up back to that key |
| DnsResponse.Length16 | packages/protocol/src/protocol/response.ts:80 | the data length field is the length itself below 65536, and otherwise differs from it by a multiple of 65536 |
| DnsResponse.Payload | packages/protocol/src/protocol/response.ts:82-90 | binary data is written as it is; string data is written one byte per character |
| DnsResponse.DataLength | packages/protocol/src/protocol/response.ts:63 | `answer.data.length` is the number of payload bytes written |
| DnsResponse.EncodeHeader | packages/protocol/src/protocol/response.ts:15-30 | the count checks run in section order and name the first section over 65535; otherwise the 12-byte header is identifier, flags and four counts |
| DnsResponse.QuestionsLength | packages/protocol/src/protocol/response.ts:33-37 | the size pass yields exactly the length of the question section |
| DnsResponse.AppendQuestion | packages/protocol/src/protocol/response.ts:42-54 | writing a question after the first `i` extends the buffer's prefix to the first `i + 1` records, and advances the offset by exactly the record's size; no byte after the record changes |
| DnsResponse.EncodeQuestions | packages/protocol/src/protocol/response.ts:32-57 | the section is each question's name bytes, type code and class code, back to back |
| DnsResponse.CharCodes | packages/protocol/src/protocol/response.ts:87-89 | a string payload is its character codes modulo 256 |
| DnsResponse.AnswersLength | packages/protocol/src/protocol/response.ts:60-64 | the size pass yields exactly the length of the answer section |
| DnsResponse.AppendAnswer | packages/protocol/src/protocol/response.ts:69-93 | writing an answer after the first `i` extends the buffer's prefix to the first `i + 1` records, and advances the offset by exactly the record's size; no byte after the record changes |
| DnsResponse.EncodeAnswers | packages/protocol/src/protocol/response.ts:59-96 | the section is each answer's name, type, class, time to live, data length and data, back to back |
| DnsResponse.AuthoritiesLength | packages/protocol/src/protocol/response.ts:99-104 | the size pass yields exactly the length of the authority section |
| DnsResponse.AppendAuthority | packages/protocol/src/protocol/response.ts:106-128 | writing an authority record after the first `i` extends the buffer's prefix to the first `i + 1` records, and advances the offset by exactly the record's size; no byte after the record changes |
| DnsResponse.EncodeAuthorities | packages/protocol/src/protocol/response.ts:98-131 | the section is each record's name, type, class 1, time to live, data length and data name, back to back |
| DnsResponse.EncodeAdditional | packages/protocol/src/protocol/response.ts:133-166 | the additional section is encoded exactly as an authority section |
| DnsResponse.SectionRoom | packages/protocol/src/protocol/response.ts:39-53 | every record fits in the pre-sized section buffer after the records before it, so no write falls outside the buffer |
| DnsResponse.Assemble | packages/protocol/src/protocol/response.ts:174-189 | the five parts are copied one after the other into a buffer of their total length |
| DnsResponse.EncodeDNSResponse | packages/protocol/src/protocol/response.ts:168-191 | the method yields the header and the four sections back to back, or the header's error |
| DnsResponse.EncodeResponseFailure | packages/protocol/src/protocol/response.ts:16-19 | encoding fails exactly when some section has more than 65535 records, and the error names the first such section in header order |
| DnsResponse.HeaderLayout | packages/protocol/src/protocol/response.ts:22-28 | the header words at offsets 0 to 10 read back as identifier, flags and the four list lengths |
| DnsResponse.ResponseHeader | packages/protocol/src/protocol/response.ts:168-191 | an encoded message is at least 12 bytes long, and its first six words are identifier, flags and the four counts |
| DnsResponse.AnswerLayout | packages/protocol/src/protocol/response.ts:69-90 | an answer record is the encoded name, then type, class, time to live and data length at fixed offsets after the name, then the data; the length is the data size modulo 65536; the name decodes back |
| DnsResponse.AuthorityLayout | packages/protocol/src/protocol/response.ts:106-127 | an authority record has class 1; its data is the data string encoded as a name, and its length field gives that encoding's size; both the owner name and the data decode back as names |
| DnsResponse.RecordAt | packages/protocol/src/protocol/response.ts:42-53 | record `i` of a section lies right after the bytes of the records before it |
| DnsResponse.ConcatAppend | packages/protocol/src/protocol/response.ts:42-53 | encoding two lists of records one after the other is encoding their concatenation |
| DnsResponse.QuestionsLengthSum | packages/protocol/src/protocol/response.ts:33-37 | the question section's length is the sum, over the questions, of the name's size plus 4 |
| DnsResponse.AnswersLengthSum | packages/protocol/src/protocol/response.ts:60-64 | the answer section's length is the sum, over the answers, of the name's size plus 10 plus the data length |
| DnsResponse.AuthoritiesLengthSum | packages/protocol/src/protocol/response.ts:99-104 | an authority or additional section's length is the sum, over the records, of both names' sizes plus 10 |
| DnsResponse.ResponseLength | packages/protocol/src/protocol/response.ts:174-176 | an encoded message's length is 12 plus the sizes of all its records |
| DnsRoundTrip.ParseQuestionFields | packages/protocol/src/protocol/request.ts:14-18 | a name followed by two 16-bit codes parses as that name, with the codes looked up in the enumerations and a length 3 more than the name's bytes |
| DnsRoundTrip.QuestionRoundTrip | packages/protocol/src/protocol/request.ts:13-19 | a question written by the response encoder, anywhere in a message, parses back with the canonical name, the same type and class keys, and a length one short of the record |
| DnsRoundTrip.FirstQuestionRoundTrip | packages/protocol/src/protocol/request.ts:30-32 | the first question of any encoded response parses back from byte 12 |
| DnsRoundTrip.ResponseAsRequest | packages/protocol/src/protocol/request.ts:21-38 | a one-question response, read by the request parser, gives back its identifier, its flag word and its question |
| DefaultResolver.Nibble | packages/resolver/src/index.ts:28 | `(n ?? 0) & 0x0F` is below 16 |
| DefaultResolver.EncodeFlags | packages/resolver/src/index.ts:24-38 | the sequence of bitwise-or assignments from 0 yields the flag word with each field at its position in section 4.1.1 of RFC 1035, and the AD and CD bits (0x0020, 0x0010) as section 3.2 of RFC 4035 places them |
| DefaultResolver.EncodedBits | packages/resolver/src/index.ts:24-37 | in an encoded word, each flag's bit is set exactly when the flag is true, each code's 4 bits hold it modulo 16, and bit 6 (Z) is clear |
| DefaultResolver.ReservedBitClear | packages/resolver/src/index.ts:24-37 | `z` is ignored and bit 0x0040 is never set |
| DefaultResolver.CodesIsolated | packages/resolver/src/index.ts:28-35 | any operation code or reply code, however large or negative, leaves every bit outside its own 4 bits unchanged |
| DefaultResolver.DecodeFlags | packages/resolver/src/index.ts:40-52 | the decoded flags have no `z`, QR is set exactly for words from 0x8000 on, every other flag is present, and both codes are numbers from 0 to 15 |
| DefaultResolver.DecodeEncodeFlags | packages/resolver/src/index.ts:40-52 | decoding an encoded word gives every flag (unset read as false) and both codes modulo 16, without `z` |
| DefaultResolver.EncodeDecodeFlags | packages/resolver/src/index.ts:40-52 | encoding a decoded word gives the word with bit 0x0040 cleared, so it is unchanged exactly when Z is clear |
| DefaultResolver.Fields | packages/resolver/src/index.ts:42-50 | the masked fields read by `decodeFlags` cover every bit of the word except bit 6 |
| DefaultResolver.ReplyFlagWord | packages/resolver/src/index.ts:17-20 | the flags `resolve` asks for encode to 0x8000 |
| DefaultResolver.Resolve | packages/resolver/src/index.ts:4-22 | the reply echoes the identifier and questions, carries one answer (type 1, class 1, time to live 3600, data 1.1.1.1) for the first question's name, no other records, and flags that decode as a response with reply code 0; without a question it fails |
| DefaultResolver.ResolveRoundTrip | packages/resolver/src/index.ts:4-22 | the encoded reply to a one-question request, read back by the request parser, has the request's identifier, flags 0x8000 and the question |

## Left out

- The UDP and DNS-over-HTTPS servers (`packages/server`) are not part of this model. Neither is loading the resolver from the environment, or logging.
- `resolve` is `async`. It is modelled as a plain function; a rejected promise becomes a `Failure`.
- `uint8ArrayToDomain` does not terminate when no zero length byte can be reached at a label boundary (see "## Findings"). The model's decoder returns `None` there, and the request parser turns that into `Failure(UnterminatedName)`.
- `parseDNSQuestion` views the underlying buffer from `offset` without adding the view's `byteOffset`. The model assumes the request bytes start at offset 0 of their buffer and fill it.
- Identifiers, flags, types, classes and times to live are subset types: 16-bit, or 32-bit for the time to live. The `DataView` setters wrap values outside those ranges; that wrap-around is not modelled. The data length field's wrap is modelled (`Length16`).
- `encodeFlags` and `decodeFlags` are modelled on 16-bit words and integer codes. Non-integer or non-boolean field values and words of 2^16 or more are not modelled.
- DnsBasic.DomainToUint8Array: requires every character to be one UTF-16 code unit (`SingleUnits`). For a character outside the Basic Multilingual Plane, `label.length` and the `for...of` walk disagree, and Dafny strings hold code points, not code units.
- DnsResponse.EncodeDNSResponse: requires the same single-code-unit condition on every name and string (`Writable`), for the same reason.
- The round-trip lemmas require names whose labels are shorter than 256 characters, with codes below 256 (`NameEncodable`). They also require question keys mapped by enumerations whose two tables agree (`Recoverable`). Longer labels and larger codes wrap modulo 256 in the encoder, as modelled by `ToUint8Array`.
- Message compression (section 4.1.4 of RFC 1035, a `0xC0` prefix) is not supported by the source. A compressed name is read as ordinary label lengths, and the model does the same.

## Findings

| source | as written | input that shows it | evidently intended | confidence | as-written member | corrected member |
|---|---|---|---|---|---|---|
| packages/protocol/src/protocol/basic.ts:84-96 | the loop reads `uint8Array[offset]` with no bound check; past the end it reads `undefined`, which is not 0, and `offset += labelLength + 1` makes the offset NaN, so the loop never breaks | `[1, 97]`, or any question whose name has no terminator inside the datagram | stop with a failure when the terminator cannot be reached | high; not executed | DnsBasic.SourceLoopHangs, DnsBasic.UnterminatedNameHangs | DnsBasic.Uint8ArrayToDomain |
