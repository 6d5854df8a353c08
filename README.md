# RDNS message codec in Dafny

This project models the DNS message codec of the RDNS command-line client.
The client builds a one-question query for a domain name, serializes it, and
parses the server's response out of a receive buffer. The codec covers a
subset of the RFC 1035 wire format:

- the 12-byte header (section 4.1.1 of RFC 1035);
- the question entry with its length-prefixed labels (section 4.1.2);
- the one answer-record shape the client accepts (section 4.1.3): a
  compression-pointer name (section 4.1.4), type, class, ttl,
  rdlength 4 and an IPv4 address.

The modules follow the source files:

- `Wire` (`wire.dfy`): octets, `u16`/`u32`, big-endian reads and writes, and
  the failure outcomes. Every Rust panic (index out of range, `panic!` in a
  `From` conversion, `unimplemented!()`) and every `io::Error` becomes an
  `Err` with its own tag.
- `PacketCodec` (`packet.dfy`), from `src/packet.rs`:
  - the wire-code conversions;
  - `Header::serialize`/`parse`, `Question::serialize`/`parse`,
    `Answer::parse` and `Packet::serialize`.

  The loops and in-place updates of the source are methods. Each is proved
  equal to a specification function, and the properties are lemmas about
  those functions.
- `Response` (`response.dfy`), from `src/answer.rs`: the parsing part of
  `recieve_ans`. It reads the header from the first 12 bytes, then
  `qdcount` questions, then `ancount` answers, with running offsets. The
  answer loop is stated once, as `Records`, for any record decoder, so the
  loop as written and the corrected loop share it and its lemmas.
- `Query` (`query.dfy`), from `src/question.rs`: `create_question` and the
  split of the domain at `.`.
- `Corrected` (`corrected.dfy`): the two defects listed under Findings.
  Each is shown on a concrete input, then corrected, with the intended
  round trip proved about the correction.

The model keeps the codec as written, including where decoding is not the
inverse of encoding. Those places are stated as lemmas:

- The encoder writes QR inverted at bit 7 of byte 2 and never writes RA.
- The decoder reads QR from bit 3 and always returns AA, TC, RD and RA false.
- The opcode the decoder extracts is always 0.
- A serialized header therefore decodes with all five flags false
  (`ParseHeaderBytes`).
- `Answer::parse` reads 16 bytes but reports 14 consumed.

An answer record in the shape of section 4.1.3 of RFC 1035, with a 2-byte
pointer name and a 4-byte address, is 16 bytes: name 2, type 2, class 2,
ttl 4, rdlength 2 and address 4. `Answer::parse` reads all 16 of them (a
cursor from byte 2 reads 14 more), so a buffer holding only 14 bytes of a
record fails with an end-of-input error.

UTF-8 validity of a label (`std::str::from_utf8`) is a parameter
`utf8: Label -> bool` of every decoding function. The domain given to
`create_question` is taken as its UTF-8 bytes. Splitting those bytes at
0x2E gives the encodings of the pieces of the text split at `.`.

## Model

| member | source | states |
|---|---|---|
| Wire.U16Bytes | src/packet.rs:69-72 | `write_u16::<NetworkEndian>` appends two bytes that read back, big-endian, as the value |
| Wire.U16At | src/packet.rs:88-91 | `read_u16::<NetworkEndian>` gives a value whose high byte is the first byte read and whose low byte is the second |
| Wire.U32At | src/packet.rs:258 | `read_u32::<NetworkEndian>` gives the four bytes weighted 2^24, 2^16, 2^8 and 1, first byte most significant |
| PacketCodec.OpcodeCode | src/packet.rs:115-116 | `opcode as u8` is 0, the one declared opcode |
| PacketCodec.OpcodeRoundTrip | src/packet.rs:115-126 | converting an opcode to its number and back gives the same opcode |
| PacketCodec.OpcodeFrom | src/packet.rs:119-126 | `Opcode::from` succeeds exactly on 0 and gives back that code; any other code is the opcode panic |
| PacketCodec.RCodeValue | src/packet.rs:130-139 | `rcode as u8` is below 6 |
| PacketCodec.RCodeFrom | src/packet.rs:141-153 | `RCode::from` succeeds exactly on codes below 6, and the variant's code is the input; 6 and above panic |
| PacketCodec.RCodeRoundTrip | src/packet.rs:130-153 | converting a response code to its number and back gives the same response code |
| PacketCodec.QTypeCode | src/packet.rs:210-211 | `qtype as u16` is 1, the one declared query type |
| PacketCodec.QClassCode | src/packet.rs:225-226 | `qclass as u16` is 1, the one declared class |
| PacketCodec.ATypeCode | src/packet.rs:274-277 | `atype as u16` is 1 exactly for A and 5 exactly for CNAME |
| PacketCodec.QTypeFrom | src/packet.rs:214-221 | `QType::from` succeeds exactly on 1 and gives back that code; anything else panics |
| PacketCodec.QClassFrom | src/packet.rs:229-236 | `QClass::from` succeeds exactly on 1 and gives back that code; anything else panics |
| PacketCodec.ATypeFrom | src/packet.rs:279-287 | `AType::from` succeeds exactly on 1 and 5, giving A and CNAME whose codes are the input; anything else panics |
| PacketCodec.TypeCodesRoundTrip | src/packet.rs:210-287 | converting a query type, a class or an answer type to its number and back gives it back |
| PacketCodec.FlagsByte | src/packet.rs:51-64 | in byte 2: bit 7 is set iff QR is false, bit 2 iff AA, bit 1 iff TC, bit 0 iff RD; the Standard opcode leaves bits 3-6 clear |
| PacketCodec.HeaderBytes | src/packet.rs:47-76 | a serialized header is 12 bytes: id big-endian at 0, the flag bits above in byte 2, the rcode's number in byte 3, the four counts big-endian at 4, 6, 8 and 10 |
| PacketCodec.SerializeHeader | src/packet.rs:47-76 | the push-and-OR method produces exactly those 12 bytes |
| PacketCodec.HeaderBytesIgnoreOnlyRa | src/packet.rs:47-76 | two headers serialize to the same bytes if and only if they agree on every field except RA |
| PacketCodec.OpcodeBits | src/packet.rs:85 | `0xf8 & (b >> 6)` is 0 for every byte, so the opcode decodes as Standard |
| PacketCodec.RCodeNibble | src/packet.rs:87 | masking a response code's number with `RCODE_MASK` leaves it unchanged |
| PacketCodec.ParseHeader | src/packet.rs:79-108 | fails on fewer than 12 bytes, or when the masked rcode nibble is 6 or more (the `RCode::from` panic). Otherwise it reads the id and counts big-endian at 0, 4, 6, 8, 10 and QR from bit 3 of byte 2. Opcode is Standard; AA, TC, RD and RA are false |
| PacketCodec.ParseHeaderBytes | src/packet.rs:47-108 | decoding a serialized header keeps id, opcode, rcode and counts, and returns QR, AA, TC, RD and RA all false |
| PacketCodec.LengthByte | src/packet.rs:168 | `len as u8` is the length itself up to 255, and otherwise the length reduced modulo 256 |
| PacketCodec.LabelBytes | src/packet.rs:166-171 | a label on the wire takes one byte more than the label: its length byte and its bytes |
| PacketCodec.NameBytes | src/packet.rs:166-172 | the labels of a name take the sum of their lengths plus one each |
| PacketCodec.QuestionBytes | src/packet.rs:164-178 | a serialized question is that sum plus 5 bytes long |
| PacketCodec.QuestionBytesLayout | src/packet.rs:164-178 | a serialized question is the labels, then a zero byte, then qtype and qclass big-endian in its last four bytes |
| PacketCodec.SerializeQuestion | src/packet.rs:164-178 | the nested push loops produce exactly that encoding |
| PacketCodec.LabelsFrom | src/packet.rs:183-194 | the label loop, when it succeeds, ends past its start and within the buffer |
| PacketCodec.LabelsFromDecodes | src/packet.rs:183-194 | whatever the label loop reads is a valid name (labels of 1-255 UTF-8 bytes), and the bytes it read are exactly that name's encoding and terminator |
| PacketCodec.LabelsFromEncoded | src/packet.rs:183-194 | wherever a buffer holds the encoding of a valid name, the label loop reads that name back and ends just past its terminator |
| PacketCodec.ParsedQuestion | src/packet.rs:180-201 | a label failure is the result. Otherwise it succeeds iff four more bytes follow the terminator and hold qtype 1 and qclass 1. Consumed is the index past the terminator plus 4; the name is what the label loop read |
| PacketCodec.ParsedQuestionDecodes | src/packet.rs:180-201 | the bytes a successful decode consumed are exactly the encoding of the question it returns, and its name is valid |
| PacketCodec.QuestionRoundTrip | src/packet.rs:164-201 | decoding a serialized question with a valid name, whatever follows it, gives it back and consumes exactly its length |
| PacketCodec.ParseQuestion | src/packet.rs:180-201 | the index loop with its pushes returns exactly what the decoding function describes, error cases included |
| PacketCodec.ParsedAnswer | src/packet.rs:248-269 | a first byte with both top bits clear is BadAnswerPacket. Success iff at least 16 bytes, a pointer byte, type 1 or 5, class 1 and rdlength 4. Then consumed is 14, ttl is big-endian at 6 and the address is bytes 12-15. rdlength other than 4 is the `unimplemented!()` panic |
| PacketCodec.ParseAnswer | src/packet.rs:250-269 | the cursor reads and the four-byte push loop return exactly what the decoding function describes |
| PacketCodec.PacketBytes | src/packet.rs:14-28 | a serialized packet starts with the 12 header bytes |
| PacketCodec.SerializePacket | src/packet.rs:14-28 | the append loop produces the header bytes followed by each question's bytes in order; answers are not written |
| Response.Records | src/answer.rs:11-24 | the counted loop over a decoder that never consumes past its input, when it succeeds, yields exactly `n` records and ends within the buffer |
| Response.RecordsAtStride | src/answer.rs:18-24 | when every record reports the same consumed count `m`, a decoded run ends `m` bytes per record past its start, and record `j` is the one `j` strides past it |
| Response.RecordsFirstErrorAtStride | src/answer.rs:18-24 | with a fixed consumed count, a failing run fails with the error of the first record on the stride that does not decode, all before it having decoded |
| Response.RecordsOkIffAtStride | src/answer.rs:18-24 | with a fixed consumed count, a run decodes iff every record on the stride decodes |
| Response.RecordsIgnoreTrailingBytes | src/answer.rs:18-24 | with a decoder whose successful reads ignore what follows, a run that decodes decodes the same with any bytes appended |
| Response.ParsedQuestions | src/answer.rs:11-17 | the question loop, when it succeeds, yields exactly `n` questions and ends within the buffer |
| Response.AnswerSizeFixed | src/packet.rs:268 | `Answer::parse` always reports 14 consumed and never more bytes than it was given |
| Response.ParsedAnswers | src/answer.rs:18-24 | the answer loop, when it succeeds, yields exactly `n` answers and ends within the buffer |
| Response.QuestionsErrorPersists | src/answer.rs:13-17 | once the question loop fails, later turns do not run: the result is that first error |
| Response.AnswersErrorPersists | src/answer.rs:20-24 | once the answer loop fails, later turns do not run: the result is that first error |
| Response.QuestionsPrefix | src/answer.rs:13-17 | the questions read in the first `k` turns are the first `k` of the result, and end no later |
| Response.QuestionAt | src/answer.rs:12-17 | question `k` is decoded from where the first `k` end (offset 12 for the first), and its consumed count takes it to where the first `k + 1` end |
| Response.QuestionsFirstError | src/answer.rs:13-17 | a failing question section fails with the error of the first question that does not decode after all before it did |
| Response.AnswersAtStride | src/answer.rs:18-24 | a decoded answer section ends 14 bytes per answer past its start, and answer `j` is the record at start + 14 * j |
| Response.AnswersFirstError | src/answer.rs:18-24 | a failing answer section fails with the error of the first record on the 14-byte stride that does not decode, every record before it having decoded |
| Response.AnswersOkIff | src/answer.rs:18-24 | the answer section decodes iff every record on the 14-byte stride decodes |
| Response.QuestionIgnoresTrailingBytes | src/packet.rs:180-201 | a question that decodes decodes the same with any bytes appended |
| Response.AnswerIgnoresTrailingBytes | src/packet.rs:251-269 | an answer record that decodes decodes the same with any bytes appended |
| Response.QuestionsIgnoreTrailingBytes | src/answer.rs:11-17 | a question section that decodes decodes the same with any bytes appended |
| Response.AnswersIgnoreTrailingBytes | src/answer.rs:18-24 | an answer section that decodes decodes the same with any bytes appended |
| Response.ParsedResponseWith | src/answer.rs:7-31 | for any answer decoder: a buffer under 12 bytes is the slice panic and a header failure is the result; on success the header is the one parsed from the first 12 bytes, with `qdcount` questions and `ancount` answers |
| Response.ParsedResponse | src/answer.rs:7-31 | a buffer under 12 bytes is the slice panic, and a header failure is the result. On success the header is the one parsed from exactly the first 12 bytes, with `qdcount` questions and `ancount` answers |
| Response.ReadQuestions | src/answer.rs:11-17 | the counted loop advancing `q_index` returns exactly the question-section walk, first error included |
| Response.ReadAnswers | src/answer.rs:18-24 | the counted loop advancing `a_index` returns exactly the answer-section walk, first error included |
| Response.ReceiveAnswer | src/answer.rs:7-31 | the header, question loop and answer loop in sequence return exactly the response the decoding function describes |
| Response.ResponseIgnoresTrailingBytes | src/answer.rs:7-31 | a response that decodes decodes the same with any bytes appended |
| Response.ReceiveBuffer | src/answer.rs:5-9 | the receive buffer is 512 bytes: the datagram (cut to 512 bytes) at its front, zeros after it |
| Response.ReceiveBufferParse | src/answer.rs:5-10 | a datagram that decodes on its own decodes the same from the zero-filled 512-byte buffer |
| Response.QuestionsRoundTrip | src/answer.rs:11-17 | serialized questions with valid names, anywhere in a buffer, are read back in order, ending just past them |
| Response.SerializedPacketParsesBack | src/answer.rs:7-31 | parsing what `Packet::serialize` wrote, for a header whose qdcount counts the questions and whose ancount is 0, gives the questions back under the header with QR, AA, TC, RD and RA false |
| Query.Split | src/question.rs:20 | the pieces of `split(".")` are never empty as a list and none contains a dot |
| Query.SplitCount | src/question.rs:20 | there is one piece more than the domain has dots |
| Query.JoinSplit | src/question.rs:20 | joining the pieces with dots gives the domain back |
| Query.SplitJoin | src/question.rs:20 | splitting dot-free pieces joined with dots gives the pieces back |
| Query.CreateQuestion | src/question.rs:4-33 | id 0x1337, QR and RD set, opcode Standard, rcode NoError, AA, TC, RA clear. Counts 1/0/0/0 match one question and no answers. The question is type A, class IN, and its dot-free labels join back to the domain |
| Query.QueryHeaderBytes | src/question.rs:5-18 | every query begins `13 37 01 00 00 01 00 00 00 00 00 00` |
| Query.QueryParsesBack | src/question.rs:4-33 | a query whose pieces are valid labels parses back to its one question, under its header with QR and RD cleared |
| Query.SplitConcat | src/question.rs:20 | splitting two texts joined by a dot gives the pieces of the first followed by the pieces of the second |
| Query.EmptyPieceInvalid | src/question.rs:20 | an empty domain, one starting or ending with a dot, or one with two dots in a row, yields a piece that is not a valid label |
| Query.LastPieceOfTrailingDot | src/question.rs:20 | a domain ending in a dot ends in an empty piece |
| Query.ExampleComQuestion | src/question.rs:20-25 | the query for "example.com" has labels "example" and "com", written `07 example 03 com 00 00 01 00 01` |
| Corrected.AnswerBytes | src/packet.rs:251-269 | an answer record as a server writes it (pointer, type, class, ttl, rdlength, address) is 16 bytes |
| Corrected.AnswerBytesLayout | src/packet.rs:255-266 | each field of that record sits at the offset `Answer::parse` reads it from |
| Corrected.AnswerRecordAsWritten | src/packet.rs:268 | `Answer::parse` reads such a record back exactly but reports 14 consumed, fewer than its 16 bytes |
| Corrected.ParsedAnswerFixed | src/packet.rs:268 | the corrected decoder reports 16 consumed, within the buffer |
| Corrected.ParsedAnswerFixedAgrees | src/packet.rs:251-269 | the corrected decoder accepts, reads and rejects exactly as `Answer::parse` does |
| Corrected.AnswerRecordFixed | src/packet.rs:251-269 | the corrected decoder reads a record back and consumes exactly its bytes |
| Corrected.ParsedAnswersFixed | src/answer.rs:18-24 | the corrected answer loop yields `n` answers ending 16 bytes per answer past its start |
| Corrected.AnswersBytes | src/answer.rs:18-24 | answer records written one after another take 16 bytes each |
| Corrected.AnswersRoundTripFixed | src/answer.rs:18-24 | the corrected loop reads any number of consecutive records back in order, ending just past them |
| Corrected.ParsedResponseFixed | src/answer.rs:7-31 | the corrected response parse keeps the guarantees of the original: the slice panic under 12 bytes, a header failure as the result, and on success the parsed header with `qdcount` questions and `ancount` answers |
| Corrected.ResponseRoundTripFixed | src/answer.rs:7-31 | a response of header, questions and answer records whose counts match parses back to its questions and answers, header flags cleared as before |
| Corrected.TwoAnswersAsWritten | src/answer.rs:18-24 | a response with two A records (1.2.3.4 and 5.6.7.8) is rejected as a bad answer packet as written, and parses with the correction |
| Corrected.TwoAnswersSecondRead | src/answer.rs:20-23 | the loop as written reads the first record, then looks for the second at the third byte of the first address, which is not a pointer |
| Corrected.NonEmpty | src/question.rs:20 | dropping empty pieces leaves only non-empty ones and never adds pieces |
| Corrected.NonEmptyAppend | src/question.rs:20 | dropping empty pieces from two lists joined is dropping them from each and joining the results, so order is kept |
| Corrected.NonEmptyKeeps | src/question.rs:20 | the kept pieces are exactly the non-empty ones, and nothing changes when no piece is empty |
| Corrected.CreateQuestionFixed | src/question.rs:20-25 | the corrected query has the original header and no answers, and one question of type A and class IN whose labels are all non-empty and are exactly the non-empty pieces of the domain |
| Corrected.SplitTrailingDot | src/question.rs:20 | a trailing dot adds exactly one empty piece at the end |
| Corrected.TrailingDotFixed | src/question.rs:20-25 | with the correction, a trailing dot changes neither the labels nor the query |
| Corrected.TrailingDotLabelA | src/question.rs:20-25 | with the correction, the query for "a." names exactly ["a"] |
| Corrected.TrailingDotAsWritten | src/question.rs:20 | the query for "a." names ["a", ""], and parsing it back fails with the QType panic on code 0 |
| Corrected.TrailingDotQuestion | src/packet.rs:183-198 | reading that question, the name ends at the empty label and the zero after it is read as the type |
| Corrected.QueryRoundTripFixed | src/question.rs:4-33 | a query whose non-empty pieces are valid labels parses back to one question naming exactly those pieces, with or without a trailing dot |

## Left out

- `src/main.rs`: the socket setup, argument handling, the input loop and the
  printing of results are I/O and presentation.
- `socket.recv` (src/answer.rs:9): the received datagram is a parameter, and
  a receive error is not modelled. `ReceiveBuffer` states how the datagram
  fills the 512-byte buffer. `ReceiveAnswer` parses a buffer given to it.
- The `byteorder` crate and `Cursor` are replaced by the big-endian helpers
  of `Wire`. A cursor read past its end is the `UnexpectedEof` outcome.
- `std::str::from_utf8` is the `utf8` parameter. Unicode decoding is not
  modelled, and a decoded label stays as its bytes rather than a `String`.
- The panic message text of each `From` conversion is not kept; only the
  code that caused it is.
- PacketCodec.QuestionRoundTrip: requires each label to be 1 to 255 bytes of
  UTF-8. A longer label has its length byte truncated by `len as u8`, which
  `LengthByte` models, and the round trip is not claimed for it. The empty
  label is taken up under Findings.
- The header decode is not the inverse of the encode, and no such claim is
  made. `ParseHeaderBytes` states exactly what survives.
- Compression pointers are not followed: the answer decoder checks only the
  pointer bits, as the source does.
- Ownership moves (`serialize(self)`) and `Vec` capacity (`reserve`) have no
  counterpart on values.

## Findings

| source | as written | input that shows it | evidently intended | confidence | as-written member | corrected member |
|---|---|---|---|---|---|---|
| src/packet.rs:268 | `Answer::parse` reports 14 bytes consumed, but a cursor starting at byte 2 has read 14 more bytes, so the record is 16 bytes; every answer after the first is looked for 2 bytes early | a response with qdcount 0, ancount 2 and A records 1.2.3.4 and 5.6.7.8: the second read starts at the third byte of the first address, 3, whose top two bits are clear, so the whole response fails with BadAnswerPacket | report 2 + 14 = 16 bytes consumed, so consecutive records read back in order | not executed; high | Corrected.TwoAnswersAsWritten | Corrected.ResponseRoundTripFixed |
| src/question.rs:20 | `domain.split(".")` keeps empty pieces, and an empty label serializes as a zero byte that ends the name early | the domain "a.": the name becomes ["a", ""], the query is `01 61 00 00 00 01 00 01` after the header, and parsing it back reads type 0 and panics | write only the non-empty pieces, so a domain with its trailing root dot still names "a" | not executed; medium | Corrected.TrailingDotAsWritten | Corrected.QueryRoundTripFixed |
