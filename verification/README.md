# basic-dns-server-rust, modelled in Dafny

This project models the message codec, the resolver selection and the
command-line parser of a small DNS server written in Rust:

- the 12-byte header of section 4.1.1 of RFC 1035, decoded and encoded with
  the server's own shifts and masks (`header.dfy`);
- the question record, whose name is taken as the raw bytes in front of the
  first zero byte (`question.dfy`);
- the answer record of section 4.1.3 of RFC 1035, written with its name as
  UTF-8 text followed by one zero byte (`answer.dfy`, `utf8.dfy`);
- a message made of one header, one question and at most one answer, and
  the response the server derives from a request (`message.dfy`);
- the choice between the default and a custom resolver, and the dispatch
  that answers every question (`resolver.dfy`);
- the recursive scan of the command line for `--resolver <value>`
  (`cli_params.dfy`, with the string operations it uses in `text.dfy`).

Bytes are `bv8`, `u16` is `bv16` and `u32` is `bv32`, so the truncating
`as u8` casts, shifts and masks of the Rust code are bit-exact
(`byte_order.dfy`). Rust's `Vec` appends become appends to a `seq`. An
out-of-range slice or index panics in Rust. The model turns each such case
into a `requires`: the header needs 12 bytes, and a question needs its
name plus five bytes. The parts that build a vector step by step are
methods proved equal to a specification function:

- `Question::into` and `Answer::into` push and extend a local vector;
- `CliParam::from` bumps an index and recurses on the rest of the
  arguments.

Everything else is pure and is modelled by functions.

The model follows the code, including where it departs from RFC 1035:

- The response copies `z` from the request; it is not cleared.
- `qdcount` and `ancount` are set to 1 whatever the request held.
- Names are never split into labels, and compression pointers are never
  followed.
- The answer's name is written as its text bytes, not as labels.

## Model

| member | source | states |
|---|---|---|
| ByteOrder.Be16 | src/server/message/header.rs:63-64 | `u16` to two bytes, most significant first: the first byte is the value shifted right by 8, the second its low eight bits |
| ByteOrder.FromBe16 | src/server/message/header.rs:43 | `u16::from_be_bytes`: the high byte of the result is the first byte, the low byte the second |
| ByteOrder.Be32 | src/server/message/answer.rs:39 | `u32::to_be_bytes`: four bytes, most significant first |
| ByteOrder.Be16RoundTrip | src/server/message/header.rs:43 | reading back the two bytes written for a `u16` gives the same value |
| ByteOrder.FromBe16RoundTrip | src/server/message/header.rs:63-64 | writing the `u16` read from two bytes gives the same two bytes |
| ByteOrder.Be32RoundTrip | src/server/message/answer.rs:39 | the four bytes of a `u32` read big-endian give it back |
| DnsHeader.Default | src/server/message/header.rs:20-38 | the default header's fields fit their bit widths; `DefaultEncodesToZeros` pins every field to zero |
| DnsHeader.Decode | src/server/message/header.rs:40-57 | needs at least 12 bytes; every decoded flag field fits its bit width (one-bit flags ≤ 1, opcode and rcode ≤ 15, z ≤ 7); id and the four counts are big-endian reads of bytes 0–1, 4–5, 6–7, 8–9 and 10–11; the flag bits are stated by `DecodeFlagLayout` |
| DnsHeader.DecodeFlagLayout | src/server/message/header.rs:44-51 | byte 2 is qr in bit 7, opcode in bits 6–3, aa, tc and rd in bits 2, 1 and 0 of the decoded header; byte 3 is ra in bit 7, z in bits 6–4 and rcode in bits 3–0 |
| DnsHeader.DecodeReadsOnlyHeader | src/server/message/header.rs:40-57 | two inputs that agree on bytes 0 to 11 decode to the same header, whatever follows |
| DnsHeader.Encode | src/server/message/header.rs:60-77 | exactly `HEADER_SIZE` = 12 bytes, with id and the four counts written big-endian at bytes 0–1, 4–5, 6–7, 8–9 and 10–11; the flag bits are stated by `EncodeFlagLayout` |
| DnsHeader.EncodeFlagLayout | src/server/message/header.rs:65-66 | for a header whose fields fit, qr, opcode, aa, tc and rd are read back from bits 7, 6–3, 2, 1 and 0 of byte 2, and ra, z and rcode from bits 7, 6–4 and 3–0 of byte 3 |
| DnsHeader.EncodeDecode | src/server/message/header.rs:40-77 | for every input of at least 12 bytes, encoding the decoded header reproduces its first 12 bytes |
| DnsHeader.DecodeEncode | src/server/message/header.rs:40-77 | decoding an encoded header gives it back whenever each field fits its bit width |
| DnsHeader.DefaultEncodesToZeros | src/server/message/header.rs:20-38 | the default header goes on the wire as twelve zero bytes |
| DnsHeader.ExampleHeader | src/server/message/header.rs:40-57 | the header `144 155 1 0 0 2 0 0 0 0 0 0` decodes to id 0x909B, rd 1, qdcount 2 and every other field 0 |
| DnsQuestion.ZeroPosition | src/server/message/question.rs:10 | `position` of the first zero byte: none exactly when the bytes hold no zero, otherwise an index holding zero with no zero before it |
| DnsQuestion.NameBeforeZero | src/server/message/question.rs:10-13 | the kept name is a prefix without zero bytes, followed in the input by a zero byte; it is empty when there is no zero byte |
| DnsQuestion.Decode | src/server/message/question.rs:8-23 | needs the name plus five bytes; the name is the bytes before the first zero; qtype and qclass are big-endian reads of the four bytes after the one byte skipped |
| DnsQuestion.Into | src/server/message/question.rs:25-34 | the bytes built by appending are the name, one zero byte, qtype and qclass big-endian; `|name| + 5` of them |
| DnsQuestion.DecodeWire | src/server/message/question.rs:8-34 | decoding the encoding of a question whose name has no zero byte, followed by any bytes at all, gives the question back |
| DnsQuestion.DecodedNameHasNoZero | src/server/message/question.rs:10-11 | a decoded name never contains a zero byte, so every decoded question survives re-encoding and decoding |
| DnsQuestion.WireDecode | src/server/message/question.rs:8-34 | for input holding a zero byte, re-encoding the decoded question reproduces exactly the bytes the decoder read |
| DnsQuestion.NoZeroSkipsFirstByte | src/server/message/question.rs:10-20 | without a zero byte the name is empty and one byte is still skipped: qtype comes from bytes 1–2 and qclass from bytes 3–4 |
| Utf8.EncodeChar | src/server/message/answer.rs:35 | one to four bytes per character, one byte exactly for code points below 0x80, and a zero byte only for NUL |
| Utf8.CodeUnits | src/server/message/answer.rs:35 | the shortest-form UTF-8 byte values of a scalar value: one byte below 0x80, two below 0x800, three below 0x10000, four otherwise; the lead byte is in 0xC0..0xDF, 0xE0..0xEF or 0xF0..0xF7 by that length, and continuation bytes are in 0x80..0xBF |
| Utf8.CodeUnitsDecode | src/server/message/answer.rs:35 | decoding the UTF-8 byte values of any scalar value gives it back |
| Utf8.Encode | src/server/message/answer.rs:35 | `as_bytes` of a string: at least one byte per character, and exactly one per character exactly when the string is ASCII |
| Utf8.EncodeZeroIffNul | src/server/message/answer.rs:35 | the bytes of a string contain a zero exactly when the string contains NUL |
| Utf8.EncodeAppend | src/server/message/answer.rs:35 | the bytes of a concatenation are the concatenation of the bytes |
| Utf8.AsciiEncoding | src/server/message/answer.rs:35 | an ASCII string has one byte per character, each its own code |
| DnsAnswer.Default | src/server/message/answer.rs:13-24 | the default answer has an empty name and no rdata |
| DnsAnswer.DefaultWire | src/server/message/answer.rs:13-24 | the default answer goes on the wire as eleven zero bytes |
| DnsAnswer.ForQuestion | src/server/message/answer.rs:26-30 | the answer for any question is eleven zero bytes on the wire |
| DnsAnswer.ForQuestionIgnoresQuestion | src/server/message/answer.rs:27-29 | every question gets the same answer, `Answer::default()` |
| DnsAnswer.FixedFields | src/server/message/answer.rs:36-40 | the eleven bytes after the name: a zero byte, then type, class, TTL and rdlength, each big-endian |
| DnsAnswer.Into | src/server/message/answer.rs:32-44 | the bytes built by appending are the answer's wire form, `|name bytes| + 11 + |rdata|` long |
| DnsAnswer.WireLayout | src/server/message/answer.rs:34-42 | the encoding is the UTF-8 name, the eleven fixed bytes (rdlength as stored, whatever the rdata length) and then rdata verbatim |
| DnsAnswer.AnswerStartsWithQuestion | src/server/message/answer.rs:32-44 | the bytes in front of the TTL form a question record; for a name without NUL the question decoder reads name, type and class back |
| DnsMessage.Decode | src/server/message/mod.rs:16-24 | the header comes from bytes 0–11 and re-encodes to them; the question comes from the bytes after, its qtype and qclass being big-endian reads of the four bytes after the name and the byte skipped; no answer |
| DnsMessage.QuestionFieldsAt | src/server/message/mod.rs:16-24 | the question's qtype and qclass sit at offset 12 + name length + 1 and + 3 of the whole message |
| DnsMessage.ResponseCode | src/server/message/mod.rs:28-31 | 0 exactly when the opcode is 0, and 4 otherwise |
| DnsMessage.Response | src/server/message/mod.rs:27-44 | qr = 1, qdcount = ancount = 1, rcode by opcode; id, opcode, aa, tc, rd, ra, z, nscount and arcount copied; the question echoed and the answer attached |
| DnsMessage.ResponseKeepsFieldsFit | src/server/message/mod.rs:32-38 | a response to a header whose fields fit their widths has fields that fit too |
| DnsMessage.ResponseIdempotent | src/server/message/mod.rs:27-44 | deriving a response from a response leaves the header unchanged |
| DnsMessage.UnsupportedOpcodeResponse | src/server/message/mod.rs:28-31 | a request with opcode 5 gets response code 4 |
| DnsMessage.Encode | src/server/message/mod.rs:47-58 | `12 + |qname| + 5 + |answer bytes|` bytes, starting with the header's encoding |
| DnsMessage.EncodeParts | src/server/message/mod.rs:47-58 | the encoding is the header bytes, then the question bytes, then the answer bytes or nothing |
| DnsMessage.ResponseEchoesId | src/server/message/mod.rs:37-49 | the first two bytes of an encoded response are the request's id, big-endian |
| DnsMessage.ResponseAnnouncesOneAnswer | src/server/message/mod.rs:35-49 | bytes 6–7 of an encoded response are `0 1`: one answer |
| DnsMessage.ResponseEndsWithAnswer | src/server/message/mod.rs:47-58 | an encoded response has the header, question and answer lengths added up, and ends with the answer's bytes |
| DnsMessage.ResponseDecodes | src/server/message/mod.rs:16-58 | the encoded response to any decodable request decodes again, to the response's header and question with no answer |
| DnsMessage.TwoQuestionRequest | src/server/message/mod.rs:16-24 | a request with two questions, the second compressed: only the first is read, its name being the raw length-prefixed labels up to the zero byte |
| DnsResolver.FromParams | src/server/resolver.rs:10-20 | `Default` exactly when no parameter is a resolver parameter; otherwise `Custom` of the value of the first one |
| DnsResolver.DefaultResolver | src/server/resolver.rs:29-31 | one answer per question, each the default answer |
| DnsResolver.CustomResolver | src/server/resolver.rs:33-35 | one answer per question, each the default answer, whatever the address |
| DnsResolver.ResolveQuestions | src/server/resolver.rs:22-27 | one answer per question, and every answer is the default answer |
| DnsResolver.ResolverChoiceIrrelevant | src/server/resolver.rs:22-35 | the custom resolver answers exactly as the default one does |
| DnsResolver.NoQuestionsNoAnswers | src/server/resolver.rs:29-35 | no questions give no answers |
| DnsResolver.ResolverFromArgs | src/server/resolver.rs:10-20 | from the command line, a custom resolver is chosen exactly when the scan finds a parameter, and its address is the first one's trimmed, non-empty, not `--`-prefixed value |
| Text.StartsWith | src/cli_params.rs:12 | `str::starts_with`: true exactly when the prefix is no longer than the string and matches it character by character |
| Text.Trim | src/cli_params.rs:11 | `str::trim`: the result has no whitespace at either end and is no longer than the input |
| Text.TrimStart | src/cli_params.rs:11 | a suffix of the input; everything dropped is whitespace; it does not start with whitespace |
| Text.TrimEnd | src/cli_params.rs:11 | a prefix of the input; everything dropped is whitespace; it does not end with whitespace |
| Text.TrimDropsOnlyWhitespace | src/cli_params.rs:11 | the trimmed string is one contiguous piece of the input and everything around it is whitespace |
| Text.TrimIdempotent | src/cli_params.rs:11 | trimming twice is trimming once |
| Text.LowerAscii | src/cli_params.rs:25 | `A`..`Z` become `a`..`z` (the code point plus 32); every other character is kept |
| Text.ToLowerAscii | src/cli_params.rs:25 | same length; each character lower-cased by `LowerAscii` |
| Text.ToLowerIdempotent | src/cli_params.rs:25 | lower-casing twice is lower-casing once |
| CliParams.ParamValue | src/cli_params.rs:10-16 | none exactly when the trimmed string is empty or starts with `--`; otherwise the trimmed string, which is then a valid value |
| CliParams.ValidValueAccepted | src/cli_params.rs:10-16 | a trimmed, non-empty value not starting with `--` is taken unchanged |
| CliParams.From | src/cli_params.rs:18-41 | the vector built by the recursive scan equals the parameter list specified by `Params`; the scan advances by one or two arguments each time, so it terminates |
| CliParams.ParamsComeFromFlags | src/cli_params.rs:24-38 | every parameter comes from a resolver flag followed by the argument its value was read from; flags are taken left to right, at least two positions apart, so parameters keep the order of their flags and no argument is used twice |
| CliParams.ParamsLengthBound | src/cli_params.rs:24-38 | each parameter consumes two arguments: at most half as many parameters as arguments |
| CliParams.ParamsValuesValid | src/cli_params.rs:10-16 | every value produced is trimmed, non-empty and does not start with `--` |
| CliParams.NoArgsNoParams | src/cli_params.rs:19-22 | no arguments give no parameters |
| CliParams.PairsAreFound | src/cli_params.rs:24-38 | the converse of `ParamsComeFromFlags`: every resolver flag followed by an acceptable value is among the flag positions the scan takes a parameter from |
| CliParams.FlagNeverAValue | src/cli_params.rs:10-16 | a string that lower-cases to `--resolver` is never accepted as a value, so a flag can never be consumed as the value of the flag before it |
| CliParams.RefusedValueIsRescanned | src/cli_params.rs:24-38 | a flag whose next argument is refused consumes only itself; the scan restarts at that argument |
| CliParams.FlagCaseInsensitive | src/cli_params.rs:25-26 | flags that differ only in ASCII letter case give the same parameters |
| CliParams.UpperCaseFlags | src/cli_params.rs:24-31 | `--RESOLVER v` and `--Resolver v` each give the single parameter `Resolver(v)` for any valid `v` |
| CliParams.DoubleFlagExample | src/cli_params.rs:24-38 | `--resolver --resolver v` gives the single parameter `Resolver(v)` for any valid `v` |

## Left out

- The UDP loop in `src/server/mod.rs` (bind, receive, send, printing) and the start-up code in `src/main.rs` are I/O and are not modelled. The loop hands the decoder the whole 512-byte buffer, not the received size; that is outside this model.
- The glue between the modules does not match as written: the server calls a response function that does not exist, and `main` passes a resolver that the server does not take. Each function is modelled as written, and no glue is invented.
- Name compression, label parsing, several questions or answers per message, decoding of answer sections, forwarding to an upstream server, random ids and error kinds: the code has none of these, so neither does the model.
- Rust panics on short input are preconditions (`DnsHeader.Decode`, `DnsQuestion.Decode`, `DnsMessage.Decode`), not modelled errors.
- Text.ToLowerAscii: models `to_lowercase` for ASCII letters only; full Unicode case mapping, including strings that change length, is not modelled. The comparison with `--resolver` is still exact: the only non-ASCII characters whose lower case holds an ASCII letter are U+212A KELVIN SIGN (to `k`) and U+0130 (to `i` followed by U+0307), and neither `k` nor `i` occurs in `--resolver`.
- Text.IsWhitespace: `trim` uses the 25 code points of the Unicode White_Space property, as Rust's `char::is_whitespace` does; the tables are written out, not derived.
- Utf8.Encode: the contract bounds the length (one byte per character exactly for ASCII) and `EncodeZeroIffNul` places the zero bytes; its partner is `Utf8.CodeUnitsDecode`, which decodes the byte values of one character, and no decoder of whole byte strings is modelled.
- Vector growth, capacity and the moves of Rust's ownership are not modelled: a `Vec` is a `seq`.
- `ByteOrder.FromBe32` is the reading direction of `u32::to_be_bytes`. The server never reads a TTL; the function only serves as the partner of `Be32`.
