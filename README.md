# V1 macaroon wire codec

A Dafny model of the V1 serialization of macaroons in `src/serialization.rs`.

**The packet framer.**
- A packet is:
  - four lowercase hexadecimal digits giving the size of the whole packet;
  - the tag, a space and the value;
  - a newline.
- `serialize_as_packet`, `packet_header` and `to_hex_char` write one packet.
- `deserialize_as_packets` cuts a buffer back into `(key, value)` packets. It reads each header, slices the body and splits it at its first space (`get_split_index`).

**The serializer.** `serialize_v1` writes these packets, in this order:
1. location;
2. identifier;
3. for each caveat, `cid`, then `vid` and `cl` when present;
4. signature.

**The assembler.** `deserialize_v1` folds the parsed packets into a macaroon. It keeps one accumulator for the caveat being built.

Modules, one per file:

| module | contents |
|---|---|
| `Wrappers` | bytes and the three-way outcome: `Ok`, `Err(error)`, or `Panic(cause)` where the code panics. |
| `Utf8Text` | the UTF-8 check of `String::from_utf8`/`str::from_utf8` and `str::trim`, both on UTF-8 bytes. |
| `Hex` | the length header: `to_hex_char`, the digits `packet_header` writes, and `usize::from_str_radix(_, 16)` as the reader uses it. |
| `Packets` | `Packet`, `packet_header` (the method that appends the header), `serialize_as_packet`, `get_split_index`, `deserialize_as_packets` (a function and a loop proved equal), and the packet round trip. |
| `Macaroons` | the fields of `Macaroon` and `Caveat` the codec uses, and their defaults. |
| `SerializationV1` | the tags, `serialize_v1` (a method that appends packets, proved against `V1Packets`), the assembler step and fold, and `deserialize_v1` (a method with the loop of the source, proved equal to the fold). |
| `V1Laws` | what the codec guarantees and where it falls short: error propagation, last-wins, round trips, the second-`cid` finding, the two test fixtures. |

How the source's behaviours are modelled:
- **Panics.** Three slicings panic, and each becomes a `Panic` outcome distinct from the deserialization error:
  - `&data[..4]` on fewer than four bytes;
  - `&data[4..size]` with a size below 4 or past the buffer;
  - `&packet.value[..32]` on a short signature.
- **Standard-library behaviour is defined, not assumed.** Three pieces:
  - UTF-8 validity follows the Unicode Standard's table of well-formed byte sequences (Table 3-7).
  - `trim` removes the encodings of the White_Space characters from both ends.
  - The header reader accepts an optional `+` and hexadecimal digits of either case. The UTF-8 check comes first.
- **Two assemblers.** The assembler is parameterised by `Rules`:
  - `AsWritten` is the code as it stands. It drives `DeserializeV1` and `DecodeV1`.
  - `Corrected` keeps the id of a second `cid` (see Findings). It drives `DecodeV1Corrected`.
- **Fixtures.** The two test fixtures are written out as their base64-decoded bytes: 101 and 130 bytes.

## Model

| member | source | states |
|---|---|---|
| `Hex.ToHexChar` | src/serialization.rs:28-31 | the result is a lowercase hex digit; for a nibble its value is the nibble, for a larger byte the high nibble (first char of the two-digit format) |
| `Hex.HeaderValue` | src/serialization.rs:33-41 | the four header bytes are lowercase hex digits whose value is the size modulo 0x10000 |
| `Hex.HeaderRoundTrip` | src/serialization.rs:33-41 | reading the header back gives the size modulo 0x10000, and gives the size itself exactly when it is at most 0xFFFF |
| `Hex.FromStrRadix16` | src/serialization.rs:108-111 | succeeds iff the text is one or more hex digits, optionally after a `+`, and then returns their value; any failure is a `ParseIntError`; never panics |
| `Hex.ParseHeader` | src/serialization.rs:106-116 | a header that is not UTF-8 is a UTF-8 error; a UTF-8 header that is not hex (optionally after a `+`) is a `ParseIntError`; succeeds exactly on UTF-8 hex headers; four hex digits give their value, and `+` with three hex digits gives the value of the three; any success is at most 0xFFFF; never panics |
| `Hex.HexNumberBound` | src/serialization.rs:108 | n hex digits (n ≤ 4) have a value below 16^n |
| `Packets.PacketHeader` | src/serialization.rs:33-41 | the four pushed digits are `Header(size)`, four bytes long, and parse back to the size modulo 0x10000 |
| `Packets.PacketBytes` | src/serialization.rs:16-26 | a packet's length is the size it declares, `HEADER_SIZE + 2 + tag.len() + value.len()` |
| `Packets.SerializeAsPacket` | src/serialization.rs:16-26 | the appended bytes are header, tag, space, value, newline, and their length is the declared size |
| `Packets.Position` | src/serialization.rs:128 | `None` iff the byte is absent; otherwise the index of its first occurrence |
| `Packets.SplitIndex` | src/serialization.rs:127-132 | the key/value error iff the body has no space; otherwise the index of the first space |
| `Packets.ParseOutcomes` | src/serialization.rs:103-124 | an empty buffer yields the packets so far; fewer than 4 bytes, or a size below 4 or past the buffer, panics; a bad header is its error; a body without a space (a size of exactly 4 included) is the key/value error; a tag that is not UTF-8 is the UTF-8 error; otherwise the packet (tag before the first space, value after it) is appended and parsing goes on after `size` bytes |
| `Packets.ParseCountBound` | src/serialization.rs:100-125 | parsing only appends, and each packet uses at least 5 bytes, so a buffer holds at most `len / 5` packets |
| `Packets.DeserializeAsPackets` | src/serialization.rs:100-125 | the loop over the unconsumed bytes returns exactly what the recursive parse returns, errors and panics included |
| `Packets.ParseOnePacket` | src/serialization.rs:117-124 | a framed packet with a space-free UTF-8 tag and size ≤ 0xFFFF is consumed whole; the parsed value is the written value plus the newline |
| `Packets.FrameRoundTrip` | src/serialization.rs:100-132 | parsing a concatenation of such packets appends them all, in order, each value with its newline |
| `Packets.FrameReadsBack` | src/serialization.rs:16-26 | parsing framed packets from scratch gives exactly those packets, values with their newline |
| `Packets.FrameAppend` | src/serialization.rs:44-61 | the bytes of `a + b` are the bytes of `a` followed by those of `b` |
| `Utf8Text.AsciiIsValid` | src/serialization.rs:75-86 | ASCII bytes pass the UTF-8 check (tags and headers do) |
| `Utf8Text.ConcatIsValid` | src/serialization.rs:75-86 | two valid UTF-8 texts concatenate to valid UTF-8 |
| `Utf8Text.LeadingSpaceBytesStop` | src/serialization.rs:141 | after the white space `trim` removes at the front, no white space remains at the front |
| `Utf8Text.TrailingSpaceBytesStop` | src/serialization.rs:141 | likewise at the end |
| `Utf8Text.TrimIsInfix` | src/serialization.rs:141 | `trim` returns a piece of its input with no white space at either end |
| `Utf8Text.LeadingSpaceBytesAreSpace` | src/serialization.rs:141 | what is cut at the front is a run of white-space characters |
| `Utf8Text.TrailingSpaceBytesAreSpace` | src/serialization.rs:141 | what is cut at the back is a run of white-space characters |
| `Utf8Text.TrimSplitsInput` | src/serialization.rs:141 | the input is exactly the front cut, the result and the back cut, in that order |
| `Utf8Text.TrimCutsOnlySpace` | src/serialization.rs:141 | both cuts `trim` makes consist of white space only, so nothing else is removed |
| `Utf8Text.TrimDropsNewline` | src/serialization.rs:141 | trimming a text with no outer white space plus the packet's newline returns the text |
| `Utf8Text.TrimIdempotent` | src/serialization.rs:141 | trimming twice is trimming once |
| `SerializationV1.CaveatsPacketsAppend` | src/serialization.rs:48-60 | the packets of `cs + [c]` are those of `cs` followed by those of `c` |
| `SerializationV1.SerializeCaveat` | src/serialization.rs:49-59 | appends the `cid` packet, then `vid` and `cl` only for fields that are present |
| `SerializationV1.SerializeV1` | src/serialization.rs:44-63 | the bytes are the packets location, identifier, each caveat's packets in order, signature, framed one after the other |
| `SerializationV1.StepOutcomes` | src/serialization.rs:140-163 | an unknown key is the unknown-key error; a text field that is not UTF-8 is the UTF-8 error, and so is a `cid` value when the id is empty (or under the corrected rule); as written, a `cid` on an open caveat always succeeds, its value unchecked; a step succeeds exactly when its tag is known, a signature has 32 bytes or more, and every value that is read is UTF-8; a `location`, `identifier`, `vid` or `cl` packet with a UTF-8 value stores its trimmed text in its own field and changes nothing else; a short signature panics; a signature first finalizes an open caveat, then stores the first 32 bytes |
| `SerializationV1.StepAppendsOpenCaveat` | src/serialization.rs:143-159 | a step leaves the finalized caveats alone or appends the open caveat (only one with an id); only `cid` can add one to the open-plus-finalized count |
| `SerializationV1.AssembleAppendsCaveats` | src/serialization.rs:138-164 | the fold keeps the existing caveats as a prefix, finalizes no more caveats than there are `cid` packets, and finalizes only caveats with an id |
| `SerializationV1.DecodedCaveats` | src/serialization.rs:134-166 | a decoded macaroon has no more caveats than its buffer has `cid` packets, each with an id |
| `SerializationV1.DeserializeV1` | src/serialization.rs:134-166 | the loop mutating the macaroon and the accumulator returns exactly the as-written fold's result |
| `V1Laws.AssembleAppend` | src/serialization.rs:138-164 | folding `a + b` is folding `a` and then `b`; an error or panic in `a` ends the call |
| `V1Laws.FirstFailureDecides` | src/serialization.rs:138-165 | the first failing step's error or panic is the result of the whole call; no partial macaroon comes back |
| `V1Laws.UnknownKeyRejected` | src/serialization.rs:162 | a packet with a tag other than the six V1 tags anywhere in the list makes the call fail |
| `V1Laws.StepFields` | src/serialization.rs:141-151 | a successful step sets the location, identifier or signature only for that tag, to the trimmed text or the first 32 bytes |
| `V1Laws.LastPacketWins` | src/serialization.rs:141-151 | location and identifier are the trimmed values of the last such packets, the signature is the first 32 bytes of the last signature packet, and a field with no packet keeps its default |
| `V1Laws.TagsDistinct` | src/serialization.rs:7-12 | the six tags differ pairwise |
| `V1Laws.TagsAreFramable` | src/serialization.rs:7-12 | each tag is ASCII and has no space, so its packets parse back |
| `V1Laws.V1PacketsReadBack` | src/serialization.rs:44-63 | for a macaroon whose packets all fit the four-digit header, the serializer's bytes parse back to its packets, values with their newline |
| `V1Laws.TextReadsBack` | src/serialization.rs:141 | a text field's packet value (text plus newline) decodes and trims back to the text |
| `V1Laws.StepCaveat` | src/serialization.rs:143-161 | for any state and value: `cid` on an empty id sets the trimmed id and keeps any orphan verifier id or location; `cid` on an open caveat finalizes it and, as written, resets the accumulator to the default (corrected: starts one with the new trimmed id); `vid`/`cl` overwrite their field whatever it held; `signature` finalizes an open caveat; `location`/`identifier` leave the accumulator and the caveats alone |
| `V1Laws.OptionalFieldsRead` | src/serialization.rs:160-161 | from an accumulator with neither field set, the `vid` and `cl` packets of a well-formed caveat set exactly those two fields to the caveat's values |
| `V1Laws.CaveatReadsBack` | src/serialization.rs:152-161 | from the default accumulator, or under the corrected rule from one holding an open caveat, a well-formed caveat's packets finalize any open caveat and rebuild the new caveat in the accumulator |
| `V1Laws.CaveatAfterOpenCaveatAsWritten` | src/serialization.rs:155-158 | as written, a `cid` arriving with a caveat open finalizes it and drops the new id |
| `V1Laws.CaveatsReadBackCorrected` | src/serialization.rs:152-159 | under the corrected rule, any number of caveats rebuild: all but the last finalized in order, the last open |
| `V1Laws.HeadReadsBack` | src/serialization.rs:141-142 | the location and identifier packets set those two fields |
| `V1Laws.SignatureReadsBack` | src/serialization.rs:143-151 | a 32-byte signature's packet finalizes the open caveat and stores the signature |
| `V1Laws.RoundTripV1` | src/serialization.rs:208-215 | a well-formed macaroon with zero or one caveat decodes back to itself |
| `V1Laws.TwoCaveatsLoseSecond` | src/serialization.rs:155-158 | as written, a well-formed macaroon with two caveats decodes with only the first |
| `V1Laws.RoundTripCorrected` | src/serialization.rs:152-159 | with the corrected `cid` rule, every well-formed macaroon decodes back to itself |
| `V1Laws.UnsignedStreamAccepted` | src/serialization.rs:164-165 | the stream location, identifier, one `cid` (no signature packet) is accepted with the default empty signature, and the caveat left open is dropped |
| `V1Laws.OptionalFieldsOverwrite` | src/serialization.rs:160-161 | from any accumulator, the `vid` and `cl` packets of a well-formed caveat overwrite the fields the caveat has and keep the others |
| `V1Laws.CaveatOverCarry` | src/serialization.rs:152-161 | from an accumulator with no id, a caveat's packets set the id and overwrite the carried verifier id and location with the caveat's own |
| `V1Laws.CaveatPairAsWritten` | src/serialization.rs:152-161 | as written, two caveats read from an accumulator with no id finalize the first and carry only the second's verifier id and location on |
| `V1Laws.KeptAsWrittenShape` | src/serialization.rs:155-158 | as written, half of the caveats, rounded up, are kept, the k-th under the id of caveat 2k |
| `V1Laws.CaveatsReadAsWritten` | src/serialization.rs:138-164 | as written, the caveat packets of any list of well-formed caveats fold to the pairwise state `StateAsWritten` |
| `V1Laws.StateAsWrittenKeeps` | src/serialization.rs:138-165 | that state holds exactly the caveats `KeptAsWritten` names, after those already finalized, and leaves the other fields alone |
| `V1Laws.DecodeKeepsAlternateCaveats` | src/serialization.rs:134-165 | as written, every well-formed macaroon decodes to itself with its caveats replaced by `KeptAsWritten` of them |
| `V1Laws.CaveatsLostAsWritten` | src/serialization.rs:155-158 | as written, a well-formed macaroon with two or more caveats decodes with (n+1)/2 of its n caveats, so never to itself |
| `V1Laws.LostCaveatFieldsMoveOn` | src/serialization.rs:152-160 | as written, `cid a, cid b, vid v, cid c` finalizes `a`, drops `b`, and leaves caveat `c` open carrying `v` |
| `V1Laws.OrphanVerifierIdDropped` | src/serialization.rs:160 | a `vid` packet without a `cid` is accepted, and the caveat it starts is never finalized |
| `V1Laws.SerializesToFixture` | src/serialization.rs:183-187 | serializing the first expected macaroon gives the first fixture's bytes |
| `V1Laws.SerializesToFixtureWithCaveat` | src/serialization.rs:184-190 | serializing the second expected macaroon gives the second fixture's bytes |
| `V1Laws.FixtureWithoutCaveat` | src/serialization.rs:193-197 | the first fixture decodes to location "http://example.org/", identifier "keyid", no caveat and its signature |
| `V1Laws.FixtureWithCaveat` | src/serialization.rs:198-205 | the second fixture decodes to the same with one caveat "account = 3735928559", with no verifier id and no location, and its signature |

## Left out

- **Base64.** `to_base64(STANDARD)` (line 62) and `base64_decode` (lines 88-93) call into the `serialize` library.
  - The serializer's result is the byte buffer before encoding.
  - The decoder's input is the byte buffer after decoding.
  - A failed decode is not modelled.
- **Debug output.** The `println!` at line 139 is I/O.
- **V2 and V2J formats.** `serialize_v2`/`serialize_v2j` return an empty string. `deserialize_v2`/`deserialize_v2j` are `unimplemented!()` (lines 65-76 and 168-176). They have no logic to model.
- **Other modules.**
  - `Macaroon::create`, signatures and format dispatch live in modules that are not part of this model.
  - `Macaroon` and `Caveat` carry only the fields this file uses.
  - The round-trip test (lines 208-215) is modelled for any well-formed macaroon, not for `create`'s output.
- **Error messages.** Exact strings are replaced by error tags: UTF-8, integer parse, key/value, unknown key.
- **Machine integers.**
  - `usize` overflow of `HEADER_SIZE + 2 + tag.len() + value.len()` is not modelled; lengths are unbounded.
  - Only the 16-bit wrap of the header is written out.
- V1Laws.RoundTripV1: covers macaroons with at most one caveat, because the as-written assembler loses every second caveat (see Findings); `V1Laws.DecodeKeepsAlternateCaveats` states what it gives back for any number of caveats.

## Findings

| source | as written | input that shows it | evidently intended | confidence | as-written member | corrected member |
|---|---|---|---|---|---|---|
| src/serialization.rs:155-158 | a `cid` packet arriving while a caveat is open pushes that caveat and resets the accumulator to its default. The new `cid` value is never stored, so every second caveat's id is lost, and a macaroon with n ≥ 2 caveats decodes with (n+1)/2 of them (`V1Laws.CaveatsLostAsWritten`). | any well-formed macaroon with two caveats, e.g. ids "a" and "b" with no verifier id or location: it decodes with caveat "a" only. With three or more caveats, a lost caveat's verifier id and location pass to the next caveat when that one has none of its own (`V1Laws.LostCaveatFieldsMoveOn`) | push the open caveat, then start a new one whose id is the new packet's trimmed value, so that every caveat round-trips | not executed | `V1Laws.TwoCaveatsLoseSecond`, `V1Laws.CaveatsLostAsWritten` | `V1Laws.RoundTripCorrected` |
