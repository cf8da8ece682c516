# K-Filtra, verified

A Dafny model of K-Filtra, a proxy between Kafka clients and brokers, with proofs about what the proxy does to the
bytes that pass through it.

- **Schema codec** (`Wire`, `SchemaModel`, `SchemaProofs`, `SchemaTheorems`, `SchemaLimits`, `Encoders`, `Decoder`).
  Schemas and values are trees; the specification says which bytes a value has and what bytes decode to, and
  `SchemaLimits` says by itself what must be accepted, how long it is and where its bytes stand. The two encoding passes
  and the decoder are classes with the source's own fields. The wire format is that of the Kafka protocol guide,
  "Protocol Primitive Types", with tagged fields as in KIP-482.
- **Response rewriting** (`ResponseModel`, `ResponseProofs`, `Responses`, `ResponseSchemas`, `ResponseTheorems`). Metadata
  and FindCoordinator responses are decoded, edited in place and encoded again, in all their versions. Their schemas are
  compared with the protocol's fields and the versions that have them, as the vendored `kmsg` also lists them
  (vendor/github.com/twmb/franz-go/pkg/kmsg/generated.go).
- **Request and response pipeline** (`RequestHandlers`, `RequestTheorems`, `ResponseHandlers`, `ResponseStreams`,
  `LocalSasl`, `SaslExchanges`, `ProduceAcks`, `TaggedHeader`, `Streams`, `Pipeline`, `PipelineRuns`). The handlers and
  loops are methods over streams that deliver their bytes in any chunks; a replay function says what each loop makes of
  any byte stream, and the theorems say what that is for requests, exchanges and responses as peers write them. The two
  loops and an in-order broker are one state machine whose steps are the channel operations, reads and writes; every run
  of the methods is a run of it.
- **Listener table** (`Listeners`, `BrokerLookups`, `ListenerTable`). The table is specified as a value, with concurrent lookups as any
  sequence of its locked steps, and implemented by a map of shared, mutable listener configs.
- **Record encryption** (`Varints`, `Records`, `RecordProofs`, `RecordTheorems`, `RecordCanonical`, `Encryption`,
  `EncryptedRecords`, `RecordMethods`). Record batches are read, their values rewritten and the batches written again with
  new lengths, counts and checksums. The layout is that of section 5.3 of the Kafka documentation ("Message Format"). The
  two plugins share this code.
- **Client certificate subjects** (`SubjectGrammar`, `SubjectParser`, `StringOrder`, `SubjectMatch`). The cursor-based
  parser is proved against a scanner and a grammar, the matcher against equality of multisets.

`dafny verify dfyconfig.toml` checks everything.

Conventions: a method is proved against a specification function of its inputs or of the old state; theorems are about
those functions. Integers are mathematical and every width, wrap-around and truncation of the source is written out.
Which turns' channel operations time out, and the outcome of listening, of authenticators, of filters, of the address
mapping, of compiling patterns and of Unicode's upper case beyond ASCII are parameters.

Where the source and its own comments differ, the model follows the code:

- `myCopyN` is documented never to return a nil error (proxy/common.go:59-60) but returns nil once all bytes are copied.
- `readRecords` takes a negative record count to mean "compressed or empty" (plugin/vault-encryption/main.go:336-338);
  re-encoding such a batch drops its records, which is why byte identity is stated for canonical input only.

Some promises hold only under a condition; each is stated with that condition, exactly, and the failing inputs shown:
the schema round trip (`RoundTripNeedsSpace`), the lossless encryption of records (`LosslessExactlyWithoutEmptyValues`),
byte identity of records (`KeptExactlyIfCanonical`), the envelope (`UnpackPack`), the capacity of the response handler
channel (`ResponseHandlersAlwaysFit`, failing runs in `PipelinedTokensFillTheChannel`), and subjects in quotes or beyond
ASCII, none of which ever parses (`ViewExact`, `AcceptedSubjects`).

## Model

| member | source | states |
|---|---|---|
| SchemaTheorems.EncodeDecode | proxy/protocol/schema.go:631-677 | For every schema tree and every typed struct the encoder accepts, decoding the encoding gives the struct back if and only if every array passes the decoder's length checks; otherwise decoding fails, and it never gives another value. |
| SchemaTheorems.EncodeDecodeOccupied | proxy/protocol/schema.go:631-677 | Where array elements occupy at least one byte, the round trip holds if and only if no plain array has more than 131070 elements. |
| SchemaTheorems.RoundTripNeedsSpace | proxy/protocol/real_decoder.go:78-92 | The round trip fails on an array of empty structs: the encoder accepts it, the decoder rejects it. |
| SchemaTheorems.NormalForm | proxy/protocol/schema.go:631-677 | Whatever decodes to an encodable value re-encodes to bytes that are no longer, decode to the same value, and are the same bytes if and only if the input was canonical. |
| SchemaTheorems.DecodingForgetsNulls | proxy/protocol/real_decoder.go:163-202 | Decoding is not injective: any negative array count reads as an empty array, and a null STRING as an empty one. |
| SchemaLimits.EncodesExactly | proxy/protocol/prep_encoder.go:16-178 | For every schema and every value of any kind: the encoder succeeds if and only if the value is of that kind, texts and compact arrays have at most 32767 bytes or elements and arrays and tag data at most 2147483647; the output is as long as its parts add up to. |
| SchemaLimits.EncodeExactly | proxy/protocol/encoder_decoder.go:27-51 | EncodeSchema succeeds exactly for these values, up to 104857600 bytes. |
| Encoders.EncodeSchema | proxy/protocol/encoder_decoder.go:27-51 | The bytes are those of the specification, and on success the sizing pass's length, the writing pass's final offset and the size of the buffer are one number. |
| Decoder.DecodeSchema | proxy/protocol/schema.go:631-651 | The mutable decoder computes the specification's result, including the error for bytes left over. |
| ResponseSchemas.EveryVersionRewrites | proxy/protocol/responses.go:456-496 | For Metadata 0 to 13 and FindCoordinator 0 to 6: a successful rewrite decodes to the decoded input with exactly the broker or coordinator addresses mapped, entries without an address untouched, all else equal and in order. |
| ResponseSchemas.EveryVersionFound | proxy/protocol/responses.go:328-442 | In every version a decoded response has the fields the modifier looks up, so only the address mapping can make it fail. |
| ResponseSchemas.ModifierExists | proxy/protocol/responses.go:468-496 | A response is rewritten exactly for Metadata (key 3) versions 0 to 13 and FindCoordinator (key 10) versions 0 to 6; other versions of these keys are refused and no other key has a modifier. |
| ResponseTheorems.EveryVersionShape | proxy/protocol/responses.go:28-326 | The schema each of these versions is decoded with has, name by name for what is edited and type by type for the rest, the fields that the protocol has in that version, told by the version each field came in. |
| ResponseTheorems.EveryVersionApplies | proxy/protocol/responses.go:456-496 | For each of these versions rewriting succeeds if and only if the body decodes, the mapping accepts every address in it, and the value with just these addresses rewritten is encodable within 104857600 bytes. |
| ResponseTheorems.ApplyExactly | proxy/protocol/responses.go:456-466 | The same for any schema whose array elements occupy space; the output decodes to the one value with just the addresses rewritten. |
| ResponseProofs.ApplyRewrites | proxy/protocol/responses.go:456-466 | The same for any schema whose array elements occupy space. |
| ResponseProofs.ApplyIdentity | proxy/protocol/responses.go:456-466 | With an address mapping that changes nothing, the output is the input byte for byte if and only if the input was canonical, and always decodes to the same value. |
| Responses.ApplyModifier | proxy/protocol/responses.go:456-466 | Decoding, editing in place and encoding give the specified bytes or error, and the rewriting property holds of them. |
| Pipeline.StepKeepsInv | proxy/processor.go:163-275 | Every step of the request loop, of the response loop and of the broker keeps the invariant that ties the three channels and the two streams together. |
| Pipeline.ReachableInv | proxy/processor.go:71-115 | The invariant holds from newProcessor's initial channels in every state any interleaving reaches. |
| Pipeline.ResponsesCorrelate | proxy/processor_default.go:202-301 | For every interleaving, the i-th response the client gets answers the i-th reply-expecting message, was handled by that message's handler kind and, if framed, was paired with that request's own key and version. |
| Pipeline.OpenRequestPresent | proxy/processor_default.go:223-227 | When a response header has been read, the open request it answers is at the head of its channel, so receiving it never times out. |
| Pipeline.OneRequestHandler | proxy/processor.go:163-219 | At the head of the request loop exactly one request handler is queued and at every put none is: neither "missing" nor "full" can occur and the loop never ends with a nil error. |
| Pipeline.QueuedHandlers | proxy/processor.go:92-100 | Queued response handlers, with the one being put, never outnumber open requests and raw tokens in flight by more than the initial one. |
| Pipeline.ResponseHandlerFits | proxy/processor.go:173-194 | While no raw token is in flight, at most maxOpenRequests+1 response handlers are queued and putting one never blocks. |
| Pipeline.ResponseHandlersAlwaysFit | proxy/processor.go:173-194 | For every channel size: putting a response handler never finds the channel full, in any run, if and only if local SASL is enabled or SaslHandshake is forbidden. |
| Pipeline.PipelinedTokensFillTheChannel | proxy/processor.go:173-194 | The failing runs: otherwise, whatever the channel size, SaslHandshake v0 requests pipelined with their tokens bring the request loop to a put that finds the channel full and can time out. |
| Pipeline.HandlerMissingOnlyBetween | proxy/processor.go:260-275 | The response loop finds no handler only while the request loop stands between writing a request and putting the next handler, or has stopped. |
| Pipeline.SaslGate | proxy/processor_default.go:56-88 | In every reachable state with local SASL: whatever was forwarded before a configured authenticator accepted a token was ApiVersions, SaslHandshake is never forwarded, and no raw SASL v0 handler or token ever occurs. |
| Pipeline.NoDeadlock | proxy/processor.go:209-275 | While both loops run, some step other than an error is possible unless the request loop waits for the client and all replies are delivered. |
| Pipeline.ResponseProgress | proxy/processor.go:248-275 | While a reply is outstanding and its handler is out, the broker or the response loop can take a step. |
| RequestHandlers.RequestsLoop | proxy/processor.go:209-219 | For every client byte stream: the loop completes exactly the turns that the replay of these bytes allows; the broker, the client and the channels were given exactly what the replay says, besides at most the one frame, or the part of a raw token, of the turn that failed and the answer to a refused local exchange; and the replay is gated and conserves the bytes. |
| RequestHandlers.ReplayConserves | proxy/processor.go:209-219 | With filters that change nothing, after any number of turns the broker was given exactly the client's bytes up to there, with only the one accepted local exchange cut out. |
| RequestHandlers.ReplayGated | proxy/processor_default.go:56-88 | Over whole runs with local SASL: nothing but ApiVersions is forwarded before an authenticator has accepted a token of the client, SaslHandshake never, and raw handlers are never scheduled; localSaslDone holds if and only if a token was accepted. |
| RequestTheorems.RecordedExactly | proxy/processor_default.go:120-126 | Over whole runs: the open requests recorded are, in order, those of the forwarded requests that expect a reply, each with the key and version read from bytes 4 to 6 and 6 to 8 of that request and the size of what the filters made of it. |
| RequestTheorems.WrittenExactly | proxy/processor_default.go:105-146 | Over whole runs and for any filters: each turn gives the broker the size of filter(key, version, request bytes behind the length) and these bytes, or a raw token as it is, or nothing for a local exchange. |
| PipelineRuns.ReplayIsReachable | proxy/processor.go:163-219 | Every point that the request loop's methods come to, on any client bytes, is a reachable state of the state machine, with the same events, open requests and response handlers. |
| Listeners.AnswersAgree | proxy/proxy.go:215-249 | Outside deterministic mode all answers for one broker address in a run agree, however the reads and locked steps of concurrent lookups interleave. |
| Listeners.ListenersStay | proxy/proxy.go:273-335 | A listener keeps its own address, its advertised address and its broker id in all later states, and its target too unless it has a broker id and the mode is deterministic. |
| Listeners.DeterministicPorts | proxy/proxy.go:262-335 | In deterministic mode, with an operating system that listens where it is asked to, a broker's listening port is in every reachable state the function of its id that nextDynamicPort computes. |
| BrokerLookups.LookupLeads | proxy/proxy.go:215-249 | An answered lookup, other than by server name, is answered with the advertised address of a listener whose target denotes exactly the host and port asked for. |
| BrokerLookups.LookupsDiffer | proxy/proxy.go:215-249 | In a run outside deterministic mode, lookups of different hosts or ports are answered by different listeners. |
| BrokerLookups.LookupAnswered | proxy/proxy.go:215-249 | Exactly which lookups are answered: a host, a positive port, and an entry, a server name or a listener that can be started. |
| RecordProofs.RewriteCompose | plugin/vault-encryption/main.go:118-204 | Rewriting the values of all records twice is rewriting them once with both rewrites, errors included, for any input bytes. |
| RecordTheorems.RewriteKeeps | plugin/vault-encryption/main.go:118-204 | What a rewrite writes reads back as the same batches and records with only non-null values rewritten, null values still null, and right lengths, counts and checksums. |
| RecordCanonical.KeptExactlyIfCanonical | plugin/vault-encryption/main.go:388-433 | Re-encoding any bytes without changing values gives the same bytes if and only if every varint in them is minimal, every length and count is that of what follows, null has length -1, nothing is left over and every checksum is right. |
| RecordCanonical.CanonicalIsWritten | plugin/vault-encryption/main.go:388-433 | Those bytes are exactly the ones that encoding some log gives. |
| Encryption.DecryptEncrypted | plugin/vault-encryption/main.go:118-204 | Decrypting what encryption made of any records gives them re-encoded, with empty values opened as the cipher library opens them and nothing else changed. |
| Encryption.LosslessExactlyWithoutEmptyValues | plugin/vault-encryption/main.go:118-310 | The round trip loses nothing if and only if no value is empty but not null, or the library opens an empty plaintext to a non-nil slice. |
| Encryption.EncryptionRoundTrip | plugin/gcp-kms-encryption/main.go:141-227 | Records whose bytes are canonical come back byte for byte, on the same condition. |
| Encryption.UnpackPack | plugin/vault-encryption/main.go:246-273 | An envelope opens to the wrapped key and payload put in if and only if the wrapped key has at most 65532 bytes. |
| Encryption.PackUnpack | plugin/vault-encryption/main.go:258-273 | Every envelope that opens is the packed form of what it opens to. |
| EncryptedRecords.SealedValues | plugin/vault-encryption/main.go:118-255 | In whole partitions each non-null value becomes the byte 1, the length of the wrapped key, this key, the nonce and the value sealed with them, each value with its own draw and under the topic's key. |
| EncryptedRecords.DecryptsExactly | plugin/vault-encryption/main.go:257-310 | A value opens if and only if it is a whole envelope of version 1, its key unwraps with the topic's key, and what follows twelve bytes of nonce opens with it. |
| EncryptedRecords.RewriteSucceeds | plugin/vault-encryption/main.go:118-204 | Records are rewritten if and only if all batches and records read and every non-null value is accepted. |
| SubjectGrammar.SubjectsAreTexts | proxy/clientcertvalidate/parser.go:106-204 | The texts that parse as fields are exactly the texts of lists of supported fields with well-formed values, and they parse to those lists. |
| SubjectParser.AcceptedSubjects | proxy/clientcertvalidate/parser.go:88-208 | For every configured text: it is accepted if and only if it is ASCII and a prefix with the text of some supported fields, whose values compile if they are patterns, and it then asks for what those fields ask. |
| SubjectMatch.VerifyPeer | proxy/tls_client_cert_validate.go:11-35 | A client is accepted if and only if there are no subjects or some certificate's common name, country, locality, organization, organizational unit and province agree as multisets with CN, C, L, O, OU and S of some subject, as far as it lists them, in the state before any sorting; order and shared certificates do not matter. |
| TaggedHeader.ParsersAgree | proxy/protocol/schema.go:355-380 | The buffer decoder accepts exactly the inputs that the streaming skipper accepts and whose count and sizes are valid, and then both consume the same bytes. |
| ProduceAcks.ProduceReplyIffAcks | proxy/processor_default.go:160-200 | For every Produce request of versions 0 to 8, whatever its client id and transactional id, no reply is expected if and only if acks is 0, decided after reading exactly up to acks. |
| Varints.UvarintLenExact | plugin/vault-encryption/main.go:454-465 | The length table gives the exact number of base-128 bytes of every 64-bit value, 32-bit values included. |
| Varints.VarintDecodeInverts | plugin/vault-encryption/main.go:364-386 | varintDecode inverts the zigzag encoding of every int32, whatever bytes follow. |
| Wire.IntRoundTrip | proxy/protocol/real_encoder.go:15-33 | The big-endian two's complement bytes of an integer read back as that integer. |
| Wire.IntBytesOf | proxy/protocol/real_decoder.go:24-62 | Every w bytes are the encoding of the w-byte integer read from them. |
| Wire.UvarintRoundTrip | proxy/protocol/real_encoder.go:35-37 | Every 64-bit value is read back from its varint, whatever follows. |
| Wire.UvarintReencode | proxy/protocol/real_decoder.go:64-76 | The varint of a decoded value is never longer than the bytes it was read from, and the same bytes if and only if those were minimal. |
| SchemaLimits.VarintLayout | proxy/protocol/real_encoder.go:35-37 | A varint is the value in groups of seven bits, the lowest first, all but the last marked, with no empty last group. |
| SchemaLimits.IntLayout | proxy/protocol/real_encoder.go:15-33 | Integers of one, two and four bytes stand most significant byte first, negative ones as two's complement. |
| SchemaProofs.DecodedTyped | proxy/protocol/schema.go:608-619 | Decoding only gives values typed by their schema. |
| SchemaProofs.RoundTrip | proxy/protocol/schema.go:592-619 | The exact round trip for every schema with any bytes behind the encoding: the value and exactly its bytes, or an error if an array fails its length check. |
| SchemaProofs.RoundTripField | proxy/protocol/schema.go:355-470 | The same for each kind of field: plain, array, compact array and tagged fields. |
| SchemaProofs.RoundTripScalar | proxy/protocol/schema.go:81-304 | Every scalar value the encoder accepts is read back with exactly its bytes, null and empty nullable strings kept apart. |
| SchemaProofs.TaggedRoundTrip | proxy/protocol/schema.go:355-396 | Tagged fields, with null and empty data kept apart, are read back in order. |
| SchemaProofs.FitsIffBounded | proxy/protocol/real_decoder.go:78-92 | Where array elements occupy space, the remaining-bytes check never fails on an encoding: only the bound of 131070 elements can. |
| SchemaProofs.DecodedBounded | proxy/protocol/real_decoder.go:78-92 | What the decoder returns has no plain array it would itself refuse. |
| SchemaProofs.Reencode | proxy/protocol/schema.go:592-619 | Re-encoding a decoded prefix is never longer, and the same bytes if and only if it was canonical, for every schema. |
| SchemaLimits.ScalarLayout | proxy/protocol/schema.go:81-304 | The bytes of every scalar, by plain arithmetic on them: sizes, byte order, length prefixes, and the marks of null. |
| SchemaLimits.ArrayLayout | proxy/protocol/schema.go:413-470 | An array is its count, as four bytes or as a varint of one more, and then its elements. |
| SchemaLimits.TagLayout | proxy/protocol/schema.go:388-394 | A tag is a varint, the length of its data another, 2^64 - 1 for null, and then the data. |
| SchemaLimits.FieldsInOrder | proxy/protocol/schema.go:592-606 | A struct's fields stand in the order of its schema. |
| SchemaLimits.ElemsInOrder | proxy/protocol/schema.go:320-328 | Array elements stand in their order. |
| SchemaLimits.ScalarsRead | proxy/protocol/schema.go:81-304 | For all bytes: just the scalar that stands there is read, and nothing where none does, null STRING and over-long varints included. |
| SchemaLimits.ArrayLengthRead | proxy/protocol/real_decoder.go:78-92 | A plain array's count is accepted if and only if it is at most 131070 and at most the bytes behind it, or negative. |
| Encoders.PrepEncoder.PutInt8 | proxy/protocol/prep_encoder.go:16-18 | Advances the length by exactly the size of the encoding. |
| Encoders.PrepEncoder.PutInt16 | proxy/protocol/prep_encoder.go:20-22 | Advances the length by exactly the size of the encoding. |
| Encoders.PrepEncoder.PutInt32 | proxy/protocol/prep_encoder.go:24-26 | Advances the length by exactly the size of the encoding. |
| Encoders.PrepEncoder.PutBool | proxy/protocol/prep_encoder.go:45-47 | Advances the length by exactly the size of the encoding. |
| Encoders.PrepEncoder.PutVarint | proxy/protocol/prep_encoder.go:32-35 | Advances the length by exactly the size of the encoding. |
| Encoders.PrepEncoder.PutArrayLength | proxy/protocol/prep_encoder.go:37-43 | Advances the length by exactly the size of the encoding; more than 2^31-1 elements is an error. |
| Encoders.PrepEncoder.PutCompactArrayLength | proxy/protocol/prep_encoder.go:167-178 | Advances the length by exactly the size of the encoding; more than 32767 elements is an error. |
| Encoders.PrepEncoder.PutUUID | proxy/protocol/prep_encoder.go:58-61 | Advances the length by exactly the size of the encoding. |
| Encoders.PrepEncoder.PutRawBytes | proxy/protocol/prep_encoder.go:72-78 | Advances the length by exactly the size of the encoding. |
| Encoders.PrepEncoder.PutVarintBytes | proxy/protocol/prep_encoder.go:63-70 | Advances the length by exactly the size of the encoding. |
| Encoders.PrepEncoder.PutString | proxy/protocol/prep_encoder.go:97-104 | Advances the length by exactly the size of the encoding; longer than 32767 bytes is an error. |
| Encoders.PrepEncoder.PutNullableString | proxy/protocol/prep_encoder.go:89-95 | Advances the length by exactly the size of the encoding; longer than 32767 bytes is an error. |
| Encoders.PrepEncoder.PutCompactString | proxy/protocol/prep_encoder.go:149-156 | Advances the length by exactly the size of the encoding; longer than 32767 bytes is an error. |
| Encoders.PrepEncoder.PutCompactNullableString | proxy/protocol/prep_encoder.go:158-165 | Advances the length by exactly the size of the encoding; longer than 32767 bytes is an error. |
| Encoders.PrepSchema | proxy/protocol/schema.go:592-606 | The sizing pass over a value reports the encoding's error, or advances by exactly its length. |
| Encoders.PrepFields | proxy/protocol/schema.go:592-606 | The same for a struct's fields in order. |
| Encoders.PrepField | proxy/protocol/schema.go:413-470 | The same for one field of any kind. |
| Encoders.PrepElems | proxy/protocol/schema.go:320-328 | The same for array elements. |
| Encoders.PrepTags | proxy/protocol/schema.go:382-396 | The same for tagged fields. |
| Encoders.RealEncoder.PutInt | proxy/protocol/real_encoder.go:15-33 | Appends exactly the encoding to what was written and stays inside the buffer, given the room the sizing pass reserved. |
| Encoders.RealEncoder.PutBigEndian | proxy/protocol/real_encoder.go:25-28 | Appends exactly the encoding to what was written and stays inside the buffer, given the room the sizing pass reserved. |
| Encoders.RealEncoder.PutRaw | proxy/protocol/real_encoder.go:54-58 | Appends exactly the encoding to what was written and stays inside the buffer, given the room the sizing pass reserved. |
| Encoders.RealEncoder.PutVarint | proxy/protocol/real_encoder.go:35-37 | Appends exactly the encoding to what was written and stays inside the buffer, given the room the sizing pass reserved. |
| Encoders.RealEncoder.PutBool | proxy/protocol/real_encoder.go:44-50 | Appends exactly the encoding to what was written and stays inside the buffer, given the room the sizing pass reserved. |
| Encoders.RealEncoder.PutString | proxy/protocol/real_encoder.go:89-94 | Appends exactly the encoding to what was written and stays inside the buffer, given the room the sizing pass reserved. |
| Encoders.RealEncoder.PutNullableString | proxy/protocol/real_encoder.go:96-102 | Appends exactly the encoding to what was written and stays inside the buffer, given the room the sizing pass reserved. |
| Encoders.RealEncoder.PutCompactString | proxy/protocol/real_encoder.go:151-156 | Appends exactly the encoding to what was written and stays inside the buffer, given the room the sizing pass reserved. |
| Encoders.RealEncoder.PutCompactNullableString | proxy/protocol/real_encoder.go:158-164 | Appends exactly the encoding to what was written and stays inside the buffer, given the room the sizing pass reserved. |
| Encoders.RealEncoder.PutVarintBytes | proxy/protocol/real_encoder.go:80-87 | Appends exactly the encoding to what was written and stays inside the buffer, given the room the sizing pass reserved. |
| Encoders.RealSchema | proxy/protocol/schema.go:592-606 | The writing pass cannot fail once the encoding exists: it appends exactly it and advances by its length. |
| Encoders.RealFields | proxy/protocol/schema.go:592-606 | The same for a struct's fields. |
| Encoders.RealField | proxy/protocol/schema.go:413-470 | The same for one field of any kind. |
| Encoders.RealElems | proxy/protocol/schema.go:320-328 | The same for array elements. |
| Encoders.RealTags | proxy/protocol/schema.go:382-396 | The same for tagged fields. |
| Encoders.RealTag | proxy/protocol/schema.go:388-394 | The same for one tag, size and data. |
| Decoder.RealDecoder.GetFixed | proxy/protocol/real_decoder.go:24-62 | Gives the specified value or error; the offset moves forward by the specified amount, also on errors, and never leaves the buffer. |
| Decoder.RealDecoder.GetVarint | proxy/protocol/real_decoder.go:64-76 | Gives the specified value or error; the offset moves forward by the specified amount, also on errors, and never leaves the buffer. |
| Decoder.RealDecoder.GetArrayLength | proxy/protocol/real_decoder.go:78-92 | Gives the specified value or error; the offset moves forward by the specified amount, also on errors, and never leaves the buffer. |
| Decoder.RealDecoder.GetBool | proxy/protocol/real_decoder.go:94-103 | Gives the specified value or error; the offset moves forward by the specified amount, also on errors, and never leaves the buffer. |
| Decoder.RealDecoder.GetRawBytes | proxy/protocol/real_decoder.go:130-141 | Gives the specified value or error; the offset moves forward by the specified amount, also on errors, and never leaves the buffer. |
| Decoder.RealDecoder.GetVarintBytes | proxy/protocol/real_decoder.go:119-128 | Gives the specified value or error; the offset moves forward by the specified amount, also on errors, and never leaves the buffer. |
| Decoder.RealDecoder.GetStringLength | proxy/protocol/real_decoder.go:163-180 | Gives the specified value or error; the offset moves forward by the specified amount, also on errors, and never leaves the buffer. |
| Decoder.RealDecoder.GetString | proxy/protocol/real_decoder.go:182-191 | Gives the specified value or error; the offset moves forward by the specified amount, also on errors, and never leaves the buffer. |
| Decoder.RealDecoder.GetNullableString | proxy/protocol/real_decoder.go:193-202 | Gives the specified value or error; the offset moves forward by the specified amount, also on errors, and never leaves the buffer. |
| Decoder.RealDecoder.GetCompactLength | proxy/protocol/real_decoder.go:290-305 | Gives the specified value or error; the offset moves forward by the specified amount, also on errors, and never leaves the buffer. |
| Decoder.RealDecoder.GetCompactNullableLength | proxy/protocol/real_decoder.go:307-322 | Gives the specified value or error; the offset moves forward by the specified amount, also on errors, and never leaves the buffer. |
| Decoder.RealDecoder.GetCompactString | proxy/protocol/real_decoder.go:324-333 | Gives the specified value or error; the offset moves forward by the specified amount, also on errors, and never leaves the buffer. |
| Decoder.RealDecoder.GetCompactNullableString | proxy/protocol/real_decoder.go:335-344 | Gives the specified value or error; the offset moves forward by the specified amount, also on errors, and never leaves the buffer. |
| Decoder.DecodeValue | proxy/protocol/schema.go:608-619 | Decodes one value of any schema as specified, the offset moving by exactly the bytes it takes. |
| Decoder.DecodeFields | proxy/protocol/schema.go:608-619 | The same for the fields of a struct in order. |
| Decoder.DecodeField | proxy/protocol/schema.go:413-458 | The same for one field of any kind. |
| Decoder.DecodeElems | proxy/protocol/schema.go:330-342 | The same for array elements; a negative count decodes none. |
| Decoder.DecodeTagged | proxy/protocol/schema.go:355-380 | The same for tagged fields, their count included. |
| Decoder.DecodeTags | proxy/protocol/schema.go:367-379 | The same for the announced number of tags. |
| Decoder.DecodeTag | proxy/protocol/schema.go:369-376 | The same for one tag, size and data. |
| Responses.StructRef.Replace | proxy/protocol/schema.go:544-566 | Succeeds exactly when the new value is not nil, the field exists and the kinds agree; then that field alone changes, otherwise nothing. |
| Responses.ModifyAddress | proxy/protocol/responses.go:341-373 | Edits one entry in place as specified, or reports the same error. |
| Responses.ModifyMetadata | proxy/protocol/responses.go:328-376 | Edits every broker of a decoded response in place as specified. |
| Responses.ModifyCoordinator | proxy/protocol/responses.go:403-442 | Edits the coordinator of one struct in place as specified. |
| Responses.ModifyFindCoordinator | proxy/protocol/responses.go:378-401 | Edits the coordinator, or every one of the coordinators, in place as specified. |
| ResponseModel.ModifyRewrites | proxy/protocol/responses.go:328-442 | A successful edit changes host and port of the entries with an address to what the mapping gives for host, port and node id, and nothing else. |
| ResponseModel.PutGet | proxy/protocol/schema.go:536-566 | After an overwrite the field has the new value and every other field its old one. |
| ResponseTheorems.ModifyExactly | proxy/protocol/responses.go:328-442 | The edit gives a value if and only if that is the input with just its addresses rewritten: there is one such value or none. |
| ResponseTheorems.ModifySucceeds | proxy/protocol/responses.go:328-442 | The edit succeeds if and only if every entry has host, port and node id and the mapping accepts every address. |
| ResponseTheorems.MetadataShape | proxy/protocol/responses.go:28-273 | The 14 Metadata schemas are the protocol's responses of versions 0 to 13. |
| ResponseTheorems.FindCoordinatorShape | proxy/protocol/responses.go:275-326 | The 7 FindCoordinator schemas are the protocol's responses of versions 0 to 6. |
| ResponseProofs.ModifyGood | proxy/protocol/responses.go:328-442 | An edited response is still typed by its schema and within the decoder's array bound. |
| TaggedHeader.ResponseHeaderTaggedFields.MaybeRead | proxy/protocol/response_header.go:55-86 | Below header version 1 reads nothing; from 1 on returns exactly the tagged-field bytes and leaves the stream right behind them, wherever the buffer decoder would succeed too. |
| TaggedHeader.ResponseHeaderTaggedFields.SkipFields | proxy/protocol/response_header.go:65-81 | Skips the announced fields, none for a negative count. |
| TaggedHeader.ResponseHeaderTaggedFields.SkipOne | proxy/protocol/response_header.go:66-80 | Skips one tag, size and data. |
| TaggedHeader.TagsAgree | proxy/protocol/response_header.go:65-81 | Decoder and skipper agree on any number of tags. |
| Streams.Tee.ReadUvarint | proxy/protocol/response_header.go:43-53 | Reading a varint byte by byte gives the value and length of decoding it from a buffer. |
| ProduceAcks.DecideReply | proxy/processor_default.go:160-200 | Gives the specified answer and returns exactly the client bytes it read. |
| ProduceAcks.AlwaysReplies | proxy/processor_default.go:160-200 | Every request but Produce expects a reply, and nothing is read ahead. |
| ProduceAcks.RequestAcksReader.ReadAndDiscardNullableString | proxy/protocol/request_produce_reader.go:11-25 | Consumes exactly a nullable string, or fails where it is malformed. |
| ProduceAcks.RequestAcksReader.ReadAndDiscardHeaderV1Part | proxy/protocol/request_produce_reader.go:27-38 | Consumes exactly correlation id and client id. |
| ProduceAcks.RequestAcksReader.ReadAndDiscardProduceAcks | proxy/protocol/request_produce_reader.go:40-46 | Reads acks and its two bytes. |
| RequestHandlers.ForwardConsumes | proxy/processor_default.go:90-118 | A forwarded request takes exactly Length+4 client bytes, those peeked at for acks included. |
| RequestHandlers.ForwardVerbatim | proxy/processor_default.go:105-146 | Without filters, or with filters that change nothing, the frame written is the bytes read. |
| RequestHandlers.ForwardGate | proxy/processor_default.go:56-88 | With local SASL, only ApiVersions passes before authentication and SaslHandshake never. |
| RequestTheorems.ForwardsExactly | proxy/processor_default.go:22-158 | A request is forwarded if and only if it is whole, its key may pass, acks can be read in it and the filters accept it; then size, filtered bytes, record and next handlers follow from its own bytes. |
| RequestTheorems.KeysThatPass | proxy/processor_default.go:44-88 | Just the keys 0 to 20000 that are not forbidden pass; with local SASL 18 at any time, 17 never, the others once it is done; and just SaslHandshake 0 or 1 before that is answered locally. |
| RequestTheorems.AuthenticatesExactly | proxy/processor_default.go:56-86 | A turn authenticates if and only if such a SaslHandshake stands there and its exchange is accepted. |
| RequestTheorems.TokensExactly | proxy/processor_sasl_auth_v0.go:34-64 | A raw token is passed on if and only if its size is at most 104857600, or 2 GiB and more, which the limit reads as negative, and all of it is there. |
| RequestTheorems.PayloadAt | proxy/processor_default.go:90-118 | What is made of a request behind its key check, by positions in the client's bytes. |
| RequestHandlers.FramePrefix | proxy/processor_default.go:138-146 | A written frame's prefix equals its payload size exactly for payloads below 4 GiB. |
| RequestHandlers.RequestsLoopContext.GetNextRequestHandler | proxy/processor.go:196-203 | Takes the queued handler, or reports that there is none. |
| RequestHandlers.RequestsLoopContext.PutNextRequestHandler | proxy/processor.go:163-171 | Fails exactly when the one place is taken. |
| RequestHandlers.RequestsLoopContext.PutNextHandlers | proxy/processor.go:173-194 | Puts the request handler first and the response handler second, failing if the first has no place or the second times out. |
| RequestHandlers.RequestsLoopContext.SendRequestKeyVersion | proxy/processor_default.go:303-318 | Records an open request, or times out. |
| RequestHandlers.RequestsLoopContext.HandleDefault | proxy/processor_default.go:22-158 | Succeeds if and only if the client's bytes hold a request that may be forwarded or a local exchange that an authenticator accepts, and no put times out; then the stream position, the broker's and the client's bytes, the channels and localSaslDone are exactly those of that turn. |
| RequestHandlers.RequestsLoopContext.PassOn | proxy/processor_default.go:90-158 | The part from reading the rest of the request on: when it succeeds, and all it leaves behind either way. |
| RequestHandlers.RequestsLoopContext.ReadPayload | proxy/processor_default.go:90-118 | Reads the rest of a request and filters it, taking exactly its bytes; what that gives for any filter is PayloadAt. |
| RequestHandlers.RequestsLoopContext.Deliver | proxy/processor_default.go:120-157 | Records the open request before writing and puts the next handlers after it; raw SASL v0 handlers exactly after SaslHandshake v0. |
| RequestHandlers.RequestsLoopContext.HandleSaslAuthV0 | proxy/processor_sasl_auth_v0.go:17-25 | Succeeds if and only if a length within the limit and that many bytes are there and the put does not time out; copies them as they are and puts the default handlers. |
| RequestHandlers.CopyN | proxy/common.go:61-103 | Writes what it reads, in order, for any chunking; reports no error exactly when all the bytes were there. |
| RequestHandlers.HandleNext | proxy/processor.go:209-219 | One turn of the loop is exactly the next turn of the replay, or fails when there is none or a put times out, leaving at most the one frame or the part of a raw token. |
| RequestHandlers.TurnVerbatim | proxy/processor_default.go:105-146 | Any turn that forwards, a raw token's too, writes exactly the client bytes it takes. |
| RequestHandlers.TurnAuthenticates | proxy/processor_default.go:64-86 | A turn that authenticates holds an exchange with a token that the named mechanism's authenticator accepts, is the first to do so, and writes nothing to the broker. |
| RequestHandlers.GatedExtend | proxy/processor_default.go:56-88 | The gate is kept by every event that one turn may add. |
| PipelineRuns.TurnIsSteps | proxy/processor.go:163-219 | One turn of the request loop's methods is a sequence of steps of the state machine, up to the next state in which all is answered. |
| PipelineRuns.ResponseIsSteps | proxy/processor.go:248-275 | One response handled by the response loop's methods is a sequence of steps of the state machine, which takes the same handler and the same open request off the channels. |
| ResponseHandlers.HandleResponse | proxy/processor_default.go:202-301 | Consumes exactly Length+4 broker bytes and writes the specified frame, or fails and writes nothing. |
| ResponseHandlers.ResponseVerbatim | proxy/processor_default.go:202-301 | A response nobody modifies or filters reaches the client byte for byte. |
| ResponseHandlers.ResponseRewritten | proxy/processor_default.go:261-278 | A modified response keeps correlation id and tagged fields, and its body decodes to the broker's body with only the addresses rewritten. |
| ResponseHandlers.SentResponse | proxy/processor_default.go:202-301 | For every response built from correlation id, tagged fields and body, whatever follows and for any filter: just its bytes are taken, and what is written is the filter's result for correlation id, tagged fields and rewritten body; nothing if rewriting or the filter fails. |
| ResponseHandlers.BodyExactly | proxy/processor_default.go:261-278 | Bodies of other keys stay, other versions of keys 3 and 10 are refused, and Metadata 0 to 13 and FindCoordinator 0 to 6 are rewritten exactly when they decode, the mapping accepts every address and the result fits; then only the addresses change. |
| ResponseHandlers.TaggedExactly | proxy/protocol/response_header.go:55-86 | With header version 0 there are no tagged fields; from version 1 on they are exactly what the buffer decoder takes, and where it takes nothing only a negative count or size can be passed over. |
| ResponseHandlers.ResponseRead | proxy/processor_default.go:223-259 | A response is read if and only if its length is more than 4, covers its tagged fields, and all of it is there. |
| ResponseHandlers.ResponseFramePrefix | proxy/processor_default.go:288-298 | A written response's prefix equals its payload size exactly for payloads below 4 GiB. |
| ResponseHandlers.ReadFramed | proxy/processor_default.go:240-259 | The body length computed from the tagged fields is exact. |
| ResponseHandlers.FinishResponse | proxy/processor_default.go:261-286 | Rewriting and filtering give the specified payload. |
| ResponseHandlers.ResponsesLoop | proxy/processor.go:248-258 | For every broker byte stream the loop delivers exactly the responses that the replay of its bytes allows, and the client is given exactly their bytes. |
| ResponseStreams.StreamDelivered | proxy/processor.go:248-258 | For every sequence of broker messages, framed and raw, with their handlers and open requests queued in order: the loop takes exactly their bytes and gives the client exactly what is owed for each, one after the other. |
| ResponseHandlers.ResponsesConserved | proxy/processor.go:248-258 | Over whole runs: with nothing to rewrite or filter, the client is given exactly the broker's bytes, SASL v0 answers included. |
| ResponseHandlers.NextVerbatim | proxy/processor.go:248-275 | One such response passes byte for byte. |
| ResponseHandlers.HandleNextResponse | proxy/processor.go:248-275 | One turn of the response loop is exactly the next response of the replay, or fails and writes nothing. |
| ResponseHandlers.HandleSaslAuthV0Response | proxy/processor_sasl_auth_v0.go:27-89 | Succeeds if and only if four bytes are there, and passes them on as they are. |
| ResponseHandlers.ResponsesLoopContext.GetNextResponseHandler | proxy/processor.go:260-275 | Takes the oldest queued handler, or times out when none is queued. |
| ResponseHandlers.ResponsesLoopContext.ReceiveRequestKeyVersion | proxy/processor_default.go:320-336 | Takes the oldest open request, or times out when there is none. |
| LocalSasl.LocalSasl.Handshake | proxy/sasl_local.go:65-128 | Succeeds if and only if the client's bytes are a SaslHandshake of this version that names a configured mechanism, and returns that mechanism; a handshake that was read is answered in either case, with exactly one frame. |
| LocalSasl.LocalSasl.AuthenticateV0 | proxy/sasl_local.go:264-301 | Succeeds if and only if the authenticator accepts the token that stands behind its length in the client's bytes, answering four zero bytes, and nothing otherwise. |
| LocalSasl.LocalSasl.AuthenticateV1 | proxy/sasl_local.go:130-262 | Succeeds if and only if the authenticator accepts the token of the SaslAuthenticate request in the client's bytes, and answers in the request's version in either case. |
| LocalSasl.LocalSasl.Respond | proxy/sasl_local.go:112-127 | Writes header and body as one frame that declares its exact length. |
| LocalSasl.LocalSasl.ReceiveAndSendSASLAuth | proxy/sasl_local.go:43-63 | Succeeds if and only if the client's bytes hold a handshake and a token that the named mechanism's authenticator accepts; then exactly these are taken and answered, and all frames written are exact. |
| LocalSasl.ExchangeIsAuthenticated | proxy/sasl_local.go:43-63 | The mechanism of a successful exchange is the one named in the parsed handshake, the token is the one in the bytes right behind it, and that mechanism's authenticator accepts it. |
| SaslExchanges.ExchangeV1 | proxy/sasl_local.go:43-52 | For every SaslHandshake 1 and SaslAuthenticate 0 or 1 built from client id, correlation ids, mechanism and token, whatever follows: the named mechanism's authenticator is asked about exactly that token; accepted or refused, both requests are answered with their own correlation ids and the codes 0 or 58. |
| SaslExchanges.ExchangeV2 | proxy/sasl_local.go:130-262 | The same with SaslAuthenticate 2 and any tagged fields. |
| SaslExchanges.ExchangeV0 | proxy/sasl_local.go:54-63 | The same with SaslHandshake 0 and a bare token of up to 104857600 bytes: four zero bytes if it is accepted, and no answer to the token otherwise. |
| SaslExchanges.UnknownMechanism | proxy/sasl_local.go:99-129 | A mechanism that is not configured is answered with error 33 and ends the exchange. |
| SaslExchanges.TokenAsked | proxy/sasl_local.go:157-200 | SaslAuthenticate 0 and 1 are read as they were built: token, correlation id and exactly their bytes. |
| SaslExchanges.FlexibleTokenAsked | proxy/sasl_local.go:226-233 | And version 2. |
| SaslExchanges.HandshakeAsked | proxy/sasl_local.go:75-97 | And SaslHandshake 0 and 1: mechanism, correlation id and exactly its bytes. |
| LocalSasl.ExchangeAnswered | proxy/sasl_local.go:43-63 | What is written in a successful exchange is the accepting answer to both requests. |
| LocalSasl.ResponseFrameExact | proxy/sasl_local.go:112-127 | A response frame's prefix counts exactly the bytes behind it. |
| Listeners.PortInRange | proxy/proxy.go:262-271 | A port is found exactly when min + offset mod max is at most 65535, and lies in the half-open interval. |
| Listeners.PortsDiffer | proxy/proxy.go:262-271 | Offsets less than max apart get different ports. |
| Listeners.DefaultPortsSuffice | config/config.go:440-456 | After the default of Validate no offset ever fails. |
| Listeners.GetBrokerToListenerConfig | proxy/proxy.go:174-213 | Succeeds exactly when no server is configured twice in different ways and external servers are advertised as they listen; the table then has exactly the configured servers under their addresses. |
| Listeners.CollectExternal | proxy/proxy.go:188-200 | The external servers alone: success exactly when they are consistent. |
| Listeners.MergeExternal | proxy/proxy.go:202-212 | Merging in any map order gives the same table, bootstrap servers first. |
| Listeners.ListenKeepsValid | proxy/proxy.go:273-335 | Every locked step keeps: keys are current broker addresses, no config under two keys, no two configs with one non-negative broker id in deterministic mode. |
| Listeners.MappingsStay | proxy/proxy.go:273-335 | Bootstrap and external entries are never removed, and outside deterministic mode no mapping ever changes. |
| Listeners.AnswerLeadsToBroker | proxy/proxy.go:273-335 | An answer is the advertised address of a listener that connects to the broker asked for. |
| Listeners.AnswerStands | proxy/proxy.go:215-249 | An answer given anywhere in a run is what the table says at its end. |
| Listeners.RekeyFollows | proxy/proxy.go:291-301 | In deterministic mode a broker that comes back under a new address keeps its listener: key and target move, the old key goes, nothing else changes. |
| BrokerLookups.AddressIsUnique | proxy/proxy.go:220 | Different hosts or ports have different addresses, IPv6 hosts included, and the digits at the end denote the port. |
| BrokerLookups.ItoaDenotes | proxy/proxy.go:220 | The decimal text of a port is read back as the port. |
| BrokerLookups.BrokersDiffer | proxy/proxy.go:215-249 | In any mode the brokers in the table at one time have different entries. |
| BrokerLookups.ListenExactly | proxy/proxy.go:273-335 | Exactly when the locked step for a new address succeeds; a listener it starts has the default IP, the port the system gave for the requested one, the address advertised for that port, and the broker id. |
| Listeners.ValidatedPorts | config/config.go:440-456 | Which port settings Validate refuses, and that the others have ports to choose from or need none. |
| Listeners.SequentialPorts | proxy/proxy.go:306-314 | In sequential mode the listeners a run adds were given the ports of increasing values of the counter, with an operating system that listens where it is asked to. |
| Listeners.SequentialPortsDiffer | proxy/proxy.go:306-314 | The listeners that up to max lookups in a row add listen on different ports. |
| ListenerTable.ListenerMap.constructor | proxy/proxy.go:174-213 | The table starts with exactly the configured servers. |
| ListenerTable.ListenerMap.GetNetAddressMapping | proxy/proxy.go:215-249 | On shared mutable configs: the answer and the new table are the specified ones, and the invariant is kept. |
| ListenerTable.ListenerMap.ListenDynamicInstance | proxy/proxy.go:273-335 | The same for the locked step in its three modes. |
| ListenerTable.ListenerMap.FindListenerConfig | proxy/proxy.go:251-258 | Finds a config of the broker id whatever the map order, or there is none. |
| ListenerTable.ListenerMap.FoundIsUnique | proxy/proxy.go:251-258 | In deterministic mode the map order does not matter: there is only one config to find. |
| ListenerTable.ListenerMap.RekeyConfig | proxy/proxy.go:291-301 | Moves the shared config to its new key and target; its advertised address stays. |
| ListenerTable.ListenerMap.StartListener | proxy/proxy.go:316-335 | Enters a new config exactly when listening and advertising succeed. |
| ListenerTable.ListenerMap.AddConfigured | proxy/proxy_config.go:17-25 | Enters a configured server without a broker id. |
| ListenerTable.ListenerConfig.GetBrokerAddress | proxy/proxy_config.go:44-50 | Gives the config's current target. |
| ListenerTable.ListenerConfig.SetBrokerAddress | proxy/proxy_config.go:52-54 | Changes the target and nothing else of the config. |
| Varints.UnZigZagInverts | plugin/vault-encryption/main.go:364-367 | Zigzag and its inverse undo each other, and 32-bit and 64-bit ranges correspond. |
| Varints.ZigZagNegative32 | plugin/vault-encryption/main.go:467-470 | On bits, the zigzag form of a negative int32 is one more than twice its complement, and is undone. |
| Varints.ZigZagNegative64 | plugin/vault-encryption/main.go:472-475 | The same on 64 bits. |
| Varints.VarintLenExact | plugin/vault-encryption/main.go:467-475 | varintLen and varlongLen are the exact sizes of what is written. |
| Varints.AppendIsPut | vendor/github.com/twmb/franz-go/pkg/kmsg/internal/kbin/primitives.go:255-283 | Choosing the number of groups by the table writes exactly the minimal varint. |
| Varints.ReadersAgree | plugin/vault-encryption/main.go:369-386 | The plugin's decoder and the library's agree except exactly on five-byte varints of more than 32 bits, which only the plugin's accepts. |
| Varints.UvarintDecode | plugin/vault-encryption/main.go:369-386 | The loop computes the specified value and count, or the specified failure. |
| RecordProofs.BodyRead | vendor/github.com/twmb/franz-go/pkg/kmsg/record.go:98-161 | A record body of at most 2^31-1 bytes is read back field by field, whatever follows. |
| RecordProofs.RecordsRead | plugin/vault-encryption/main.go:335-362 | Written records are read back, and bytes behind them are ignored. |
| RecordProofs.BatchRead | vendor/github.com/twmb/franz-go/pkg/kmsg/generated.go:487-615 | A batch whose length field is right is read back with all its fields. |
| RecordProofs.BatchesRead | plugin/vault-encryption/main.go:312-333 | Any number of such batches is read back. |
| EncryptedRecords.NegativeLengths | vendor/github.com/twmb/franz-go/pkg/kmsg/record.go:98-161 | What is read though nobody writes it: any negative length is null, a null header key is empty, a negative number of headers or records is none. |
| RecordTheorems.KeptExactlyIfWritten | plugin/vault-encryption/main.go:388-433 | Re-encoding without changing values gives the same bytes if and only if encoding some log gives them. |
| RecordCanonical.BodyAgain | vendor/github.com/twmb/franz-go/pkg/kmsg/record.go:98-161 | Encoding a record body that was read is never longer than what was read, and the same bytes if and only if these are canonical. |
| RecordCanonical.RecordsAgain | plugin/vault-encryption/main.go:335-362 | The same for the records of a batch, with their lengths. |
| RecordCanonical.BatchAgain | plugin/vault-encryption/main.go:388-433 | An updated batch is the batch that was read if and only if its records are canonical and its count and checksum are right. |
| RecordCanonical.BatchWritten | vendor/github.com/twmb/franz-go/pkg/kmsg/generated.go:487-615 | A batch that was read encodes to exactly the bytes it was read from. |
| RecordCanonical.BatchesAgain | plugin/vault-encryption/main.go:118-204 | The same as for records, for any number of batches. |
| RecordMethods.ReadRecordBatches | plugin/vault-encryption/main.go:312-333 | The loop reads the specified batches, or fails as specified. |
| RecordMethods.ReadRecordList | plugin/vault-encryption/main.go:335-362 | The loop reads the specified records, or fails as specified; a negative count reads none. |
| RecordMethods.CalculateRecordLength | plugin/vault-encryption/main.go:435-450 | The lengths from the table add up to the exact size of the record's body, as an int32. |
| RecordMethods.VarintBytesLen | plugin/vault-encryption/main.go:477-482 | The exact size of a nullable byte string with its length. |
| RecordMethods.HeadersLen | plugin/vault-encryption/main.go:445-448 | The loop adds up the exact size of all headers. |
| RecordMethods.SerializeRecords | plugin/vault-encryption/main.go:389-396 | Writes all records with their lengths worked out again. |
| RecordMethods.UpdateBatchAt | plugin/vault-encryption/main.go:388-433 | Updates the one batch in place as specified: records, count, length, and a checksum of everything behind the checksum. |
| RecordMethods.RewriteRecordValues | plugin/vault-encryption/main.go:136-147 | Rewrites the values of the records in place as specified, skipping null. |
| RecordMethods.RewriteBatchAt | plugin/vault-encryption/main.go:128-152 | Rewrites one batch in place as specified and no other. |
| RecordMethods.RewriteAllBatches | plugin/vault-encryption/main.go:128-152 | Rewrites the batches in place as specified. |
| RecordMethods.RewriteRecords | plugin/vault-encryption/main.go:118-160 | The whole of encryptRecords and of decryptRecords: the specified bytes or error. |
| RecordMethods.PackInto | plugin/vault-encryption/main.go:246-254 | Filling the buffer part by part gives the envelope. |
| Encryption.DecryptEncryptedValue | plugin/vault-encryption/main.go:212-310 | With key service and cipher as inverse pairs, an encrypted value opens to its plaintext. |
| EncryptedRecords.EncryptsExactly | plugin/vault-encryption/main.go:212-255 | Encryption of a value fails only where the key service does. |
| EncryptedRecords.RecordLaid | vendor/github.com/twmb/franz-go/pkg/kmsg/record.go:44-88 | The fields of a record in their order: length, attributes, timestamp, offset, key, value, header count, headers; numbers as signed varints. |
| EncryptedRecords.HeaderLaid | vendor/github.com/twmb/franz-go/pkg/kmsg/record.go:44-88 | A header is its key, then its value. |
| EncryptedRecords.BatchLaid | plugin/vault-encryption/main.go:388-433 | The fields of an updated batch at their byte offsets; its length counts what is behind it and its checksum covers everything from offset 21 on. |
| SubjectGrammar.ListRendered | proxy/clientcertvalidate/parser.go:282-333 | Reading a list loses nothing: what was consumed is "[", the values joined by commas, and "]", and every value is well formed. |
| SubjectGrammar.RenderedRead | proxy/clientcertvalidate/parser.go:282-333 | Every list of well-formed values is read back from its text, wherever it stands. |
| SubjectGrammar.CloseSplit | proxy/clientcertvalidate/parser.go:239-278 | A depth counter over brackets composes, which makes it equal to the recursive reader. |
| SubjectParser.SubjectParser.constructor | proxy/clientcertvalidate/parser.go:26-34 | The cursor runs over the trimmed characters and on to the byte length of the untrimmed text. |
| SubjectParser.ViewExact | proxy/clientcertvalidate/parser.go:26-34 | The cursor's limit is the number of characters, and what it sees is the configured text, if and only if the text is ASCII and not quoted. |
| SubjectParser.OnlyPlainSubjectsParse | proxy/clientcertvalidate/parser.go:26-34 | A quoted or non-ASCII text never parses. |
| SubjectParser.CollectedNames | proxy/clientcertvalidate/parser.go:178-184 | A subject asks for just the fields that are given in it. |
| SubjectParser.CollectedValues | proxy/clientcertvalidate/parser.go:178-184 | A field given more than once counts as it is given last, with its values sorted in a string subject. |
| SubjectParser.SubjectParser.Consume | proxy/clientcertvalidate/parser.go:50-61 | Reads up to n characters and reports the end exactly when there were fewer. |
| SubjectParser.SubjectParser.ConsumeOne | proxy/clientcertvalidate/parser.go:42-48 | Takes one character, or nothing at the end. |
| SubjectParser.SubjectParser.LookupOne | proxy/clientcertvalidate/parser.go:67-85 | Looks at the next character without moving. |
| SubjectParser.SubjectParser.Skip | proxy/clientcertvalidate/parser.go:63-65 | Moves the cursor. |
| SubjectParser.SubjectParser.ReadEscapeSequence | proxy/clientcertvalidate/parser.go:402-426 | Takes a backslash and exactly one character behind it, verbatim. |
| SubjectParser.SubjectParser.ReadAnyEnclosed | proxy/clientcertvalidate/parser.go:239-278 | The recursive reader stops where the depth counter closes, with the text verbatim, or fails at the end of the input. |
| SubjectParser.SubjectParser.ReadValue | proxy/clientcertvalidate/parser.go:336-400 | Takes a value verbatim up to the comma or bracket that ends it. |
| SubjectParser.SubjectParser.ReadValues | proxy/clientcertvalidate/parser.go:282-333 | Reads the specified list, or fails where it does. |
| SubjectParser.SubjectParser.ReadFurtherValues | proxy/clientcertvalidate/parser.go:303-332 | The loop behind the first value. |
| SubjectParser.SubjectParser.ReadAlphaStringUntil | proxy/clientcertvalidate/parser.go:210-237 | Takes the upper-case letters, of any alphabet, up to the boundary, with the errors of the source. |
| SubjectParser.SubjectParser.ParseField | proxy/clientcertvalidate/parser.go:111-176 | Reads one field, with the errors of the source and their positions. |
| SubjectParser.SubjectParser.ParseFields | proxy/clientcertvalidate/parser.go:106-204 | The loop over the fields; a field given twice counts as given last. |
| SubjectParser.SubjectParser.Parse | proxy/clientcertvalidate/parser.go:88-208 | The result or error of the specification, for every configured text. |
| StringOrder.OrderedUnique | proxy/clientcertvalidate/subject.go:163-173 | There is only one sorted arrangement of given strings, so it does not matter how sort.Strings works. |
| StringOrder.SortedOrders | proxy/clientcertvalidate/subject.go:163-173 | Sorting gives an ordered arrangement of the same strings. |
| StringOrder.SortedEqual | proxy/clientcertvalidate/subject.go:163-201 | Sorted lists are equal if and only if the lists are equal as multisets. |
| StringOrder.CompareStringSlices | proxy/clientcertvalidate/subject.go:191-201 | The loop decides equality. |
| SubjectMatch.ParsedIsOrdered | proxy/clientcertvalidate/parser.go:178-184 | What the parser makes of a string subject lists only supported fields, with sorted values. |
| SubjectMatch.GetParsedSubjects | proxy/tls_client_cert_validate.go:37-48 | For any configured texts, quoted and non-ASCII ones included: succeeds exactly when every one parses, with their parses in order. |
| SubjectMatch.Certificate.TestField | proxy/clientcertvalidate/subject.go:163-173 | Sorts the certificate's field in place and compares; no field's multiset changes. |
| SubjectMatch.Certificate.SortField | proxy/clientcertvalidate/subject.go:163-173 | Sorts the attribute that the name stands for (C, L, O, OU, S) and touches no other. |
| SubjectMatch.X509Validate | proxy/clientcertvalidate/subject.go:94-161 | A certificate is accepted if and only if its attributes agree as multisets with the subject, each field name with its own attribute, whatever the map order. |
| SubjectMatch.VerifyChain | proxy/tls_client_cert_validate.go:22-32 | The same over a chain's certificates and the subjects. |
| SubjectMatch.VerifyCertificate | proxy/tls_client_cert_validate.go:24-31 | The same over the subjects. |

## Left out

- Compact nullable arrays: they implement no field, so no schema can contain one.
- Codec calls no schema uses: 64-bit integers, int32, int64 and string arrays, plain and compact byte strings.
- Structs nested in decoded values are values, written back after an edit; decoded trees are fresh, so no aliasing is lost.
- Error returns of the writing pass, which cannot occur, and nil arguments of `EncodeSchema` and `DecodeSchema`.
- A tagged-field count too large to allocate panics in the source; in the model it is an error like any other.
- The address mapping of responses is a function; the listener table behind it is modelled on its own.
- Sockets, TLS, dialers, deadlines and timers; writes take all they are given, and a blocking channel operation either succeeds or times out.
- The gateway authentication exchange that may precede the request loop, and the plugins behind authenticators and filters.
- HandleNextResponse: takes the open request off its channel before the header is read, the source once it is read; this shows only where a response fails.
- ExchangeV1: asks that the text of an authenticator's error has at most 32767 bytes; a longer one cannot be encoded and leaves the token unanswered.
- ExchangeV2: asks the same.
- The table of response header versions per request is a given function.
- ProduceReplyIffAcks: does not cover Produce from version 9 on, because the reader's header version 1 does not parse their flexible headers.
- ResponsesCorrelate: the broker is taken to answer, in order, exactly the messages that expect a reply.
- Splitting and templating of addresses, SNI connections, and accept loops beyond reading the current target.
- Parsing of Produce and Fetch messages around the records, and whether the bytes handed to plugins are message bodies.
- DecryptEncrypted: AES-GCM, the key services and CRC-32C are any functions, the first two inverse pairs; nothing is claimed about secrecy.
- RewriteCompose: asks that the rewritten records stay below 2^31 bytes, the limit of the protocol's own length field for them; beyond it the source's 32-bit lengths wrap.
- Compressed batches are read as if uncompressed, as the source does; the theorems speak of those that read.
- Reading of `kmsg` records goes through functions, not its mutable reader; buffers it shares with its input are not modelled.
- View: finds zeros however far the cursor runs behind the trimmed text; past the slice's spare capacity the source panics instead, so there either way no subject comes of it.
- AcceptedSubjects: speaks of valid UTF-8; a stray byte is one character to the source's cursor and one byte to its limit.
- `readAnyEnclosed` is modelled for its one use, where the closing bracket is taken along.
- VerifyPeer: covers string subjects only; patterns are matched in the order the certificate's fields are in, which earlier attempts may have sorted.
- Sorting is its result, not the library's algorithm.
- Connection sets, the registry, metrics, logging, token expiry and the command line.
