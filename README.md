# Appinfo codec model

A Dafny model of the binary Appinfo (binary VDF) codec in
`keypirinha-steam/src/lib/appinfo.py`. This is the format in which Steam keeps
its application cache. A file holds:

- a `<2I` header: a version magic, then the universe;
- a list of application records, each an application id, a 44-byte
  `<3IQ20sI` header and a payload of section trees, ended by the id 0;
- section trees, which are tagged key/value trees: `0x00` nested tree,
  `0x01` NUL-terminated string, `0x02` 32-bit Integer, `0x07` 64-bit Integer,
  `0x08` end of tree.

The version picks one of two dialects:

- `0x07564427`: one tree per application, read and written without the root
  flag.
- `0x07564426`: a list of named sections. Each section is an id byte, one
  skipped byte, a name and a root tree. A root tree is followed by a second
  `0x08`. The list ends with a `0x00` byte. The id is stored into the section
  tree under `__steamfiles_section_id`, and the encoder writes it back as a
  `<H` pack.

The project has these modules:

- `ByteStrings` (`bytestrings.dfy`): bytes, the unsigned widths, and
  little-endian `Pack`/`Unpack`, which is what `struct` does with a `<`
  format.
- `AppinfoValues` (`appinfo_values.dfy`): the constants and the value tree.
  A Python dictionary is a sequence of pairs in insertion order, and
  `d[k] = v` is `Put`: an existing key keeps its place and takes the new
  value. This module also says which documents are well formed.
- `AppinfoReading` (`appinfo_reading.dfy`): each reader of the decoder as a
  function of the buffer and an offset. It returns the value and the offset
  after it, or the error that stops decoding. It also holds the decoder's
  loops as recursive functions, and lemmas about what they return: distinct
  keys, app id 0 never stored, the header gate, and the root flag.
- `AppinfoDecoding` (`appinfo_decoder.dfy`): the `AppinfoDecoder` class as
  the source writes it. It has a `data` constant and an `offset` field that
  every reader moves. Each method is proved to compute what the matching
  `AppinfoReading` function computes from the offset it started at, and to
  leave `offset` where that function says the read ends. `Loads` builds a
  decoder and decodes.
- `AppinfoEncoding` (`appinfo_encoder.dfy`): the generators of
  `AppinfoEncoder`, as pure functions to the joined bytes or to the
  exception that stops them. Lemmas state:
  - when encoding succeeds, as an if-and-only-if;
  - that the section-id key is never written;
  - that the root flag adds exactly one `0x08`.
- `AppinfoRoundTrip` (`appinfo_roundtrip.dfy`): each cursor read recovers
  what the matching pack wrote. The lemmas build up in this order:
  - a string comes back from `encode_string` when it has no NUL;
  - a well-formed tree comes back from its encoding in the same order, with
    or without the root flag;
  - a named-section list comes back with its ids;
  - a well-formed document comes back from `Dumps` through `DecodeDocument`,
    followed by any bytes.
- `AppinfoExamples` (`appinfo_examples.dfy`): small inputs that show:
  - a repeated key is overwritten in place;
  - the bytes the decoder skips are not checked;
  - the smallest file;
  - the section-id entry is not written.

The examples of unchecked bytes and overwritten keys show places where one
might expect a check that the code does not make. The model follows the code:
- A repeated key is stored over the earlier one (`subsection[key] = value`,
  `appinfo.py:167`). It is not rejected.
- The byte after a root tree's `0x08` is skipped by `self.offset += 1`
  (`appinfo.py:161`). Neither its value nor its presence is checked. A root
  tree can therefore end one byte past the end of the data.
- The byte between a section id and its name is skipped whatever it holds
  (`appinfo.py:138`).

## Model

| member | source | states |
|---|---|---|
| ByteStrings.Pack | keypirinha-steam/src/lib/appinfo.py:227 | a `<I`/`<Q`-style pack of a number below 256^width is exactly `width` bytes |
| ByteStrings.Unpack | keypirinha-steam/src/lib/appinfo.py:175 | the little-endian value of a byte string is below 256^length; with UnpackPack and PackUnpack it is the inverse of Pack |
| ByteStrings.UnpackPack | keypirinha-steam/src/lib/appinfo.py:171-187 | reading little-endian what was packed little-endian gives the number back |
| ByteStrings.PackUnpack | keypirinha-steam/src/lib/appinfo.py:171-187 | every `width`-byte string is the packing of the number read from it |
| AppinfoValues.Put | keypirinha-steam/src/lib/appinfo.py:167 | `d[k] = v` on an insertion-ordered dictionary; what it does is stated by PutAbsent, PutPresent, PutKeys and PutUnique below |
| AppinfoValues.HeaderLayout | keypirinha-steam/src/lib/appinfo.py:77 | the `<3IQ20sI` layout of an application header with a 20-byte checksum is 44 bytes; ReadGameHeaderPacked reads these fields back from it |
| AppinfoValues.PutAbsent | keypirinha-steam/src/lib/appinfo.py:167 | `d[k] = v` with a new key appends the pair at the end |
| AppinfoValues.PutPresent | keypirinha-steam/src/lib/appinfo.py:167 | `d[k] = v` with an existing key replaces the value at that key's position and changes nothing else |
| AppinfoValues.PutKeys | keypirinha-steam/src/lib/appinfo.py:167 | after a store the keys are the same, or the old ones plus the new key at the end |
| AppinfoValues.PutUnique | keypirinha-steam/src/lib/appinfo.py:167 | a store keeps the keys of a dictionary distinct |
| AppinfoValues.Lookup | keypirinha-steam/src/lib/appinfo.py:247 | `d[k]` finds a value exactly when `k` is a key, and it is the value stored under `k` |
| AppinfoValues.LookupPut | keypirinha-steam/src/lib/appinfo.py:141-146 | reading a key right after storing it gives the stored value |
| AppinfoValues.PutPut | keypirinha-steam/src/lib/appinfo.py:141-146 | a second store under the same key replaces the first |
| AppinfoValues.PutNested | keypirinha-steam/src/lib/appinfo.py:146 | `d[outer][k] = v` replaces the entry under `outer`, at its own position, by the tree after `Put(tree, k, v)`; every other entry, and the keys of `d`, stay as they were |
| AppinfoValues.StoreThenNest | keypirinha-steam/src/lib/appinfo.py:141-146 | storing a tree under a name and then storing the id into it equals one store of the tree with the id added |
| AppinfoReading.ReadByteAt | keypirinha-steam/src/lib/appinfo.py:197-200 | `read_byte` succeeds exactly when a byte is left, gives the byte at the offset and advances by 1 |
| AppinfoReading.UnpackAt | keypirinha-steam/src/lib/appinfo.py:175 | the number read from `width` bytes is below 256^width |
| AppinfoReading.UnpackAtSlice | keypirinha-steam/src/lib/appinfo.py:175 | the field read at an offset is the little-endian value of the bytes there |
| AppinfoReading.ReadFixedAt | keypirinha-steam/src/lib/appinfo.py:171-187 | a struct read succeeds exactly when the whole format fits, and advances the offset by the format's size |
| AppinfoReading.ReadFixedAtPacked | keypirinha-steam/src/lib/appinfo.py:171-187 | the bytes under a fixed-width read are the little-endian packing of the number it gives |
| AppinfoReading.ReadUInt32At | keypirinha-steam/src/lib/appinfo.py:74 | `_read_int32` succeeds exactly when 4 bytes are left and advances by 4 |
| AppinfoReading.ReadUInt64At | keypirinha-steam/src/lib/appinfo.py:75 | `_read_int64` succeeds exactly when 8 bytes are left and advances by 8 |
| AppinfoReading.ReadUIntPacked | keypirinha-steam/src/lib/appinfo.py:74-75 | the `<I` and `<Q` reads are little-endian: the bytes read are the packing of the number returned |
| AppinfoReading.ReadVdfHeaderAt | keypirinha-steam/src/lib/appinfo.py:76 | `read_vdf_header` succeeds exactly when 8 bytes are left and advances by 8 |
| AppinfoReading.ReadVdfHeaderPacked | keypirinha-steam/src/lib/appinfo.py:76 | the 8 bytes read are the packed version followed by the packed universe |
| AppinfoReading.ReadGameHeaderAt | keypirinha-steam/src/lib/appinfo.py:77 | `read_game_header` succeeds exactly when 44 bytes are left, advances by 44 and gives a 20-byte checksum |
| AppinfoReading.ReadGameHeaderPacked | keypirinha-steam/src/lib/appinfo.py:77 | the 44 bytes read are the `<3IQ20sI` layout of the header returned |
| AppinfoReading.FindNul | keypirinha-steam/src/lib/appinfo.py:205-208 | the scan stops on a NUL at or after the offset |
| AppinfoReading.FindNulFirst | keypirinha-steam/src/lib/appinfo.py:205-209 | the NUL found is the first one; when none is found there is no NUL at all |
| AppinfoReading.ReadStringAt | keypirinha-steam/src/lib/appinfo.py:202-212 | `read_string` advances by the string's length plus 1, and fails only for a missing NUL |
| AppinfoReading.ReadStringAtSpec | keypirinha-steam/src/lib/appinfo.py:202-212 | a string read succeeds exactly when a NUL follows; it gives the NUL-free bytes before the first NUL, which lies right after them |
| AppinfoReading.Subsections | keypirinha-steam/src/lib/appinfo.py:152-169 | a tree read that succeeds consumes at least one byte |
| AppinfoReading.ParseEntry | keypirinha-steam/src/lib/appinfo.py:164-165 | an entry is read only for a known tag; an unknown tag fails with the unknown-type error even after the key is read |
| AppinfoReading.ParseValue | keypirinha-steam/src/lib/appinfo.py:80-85 | the dispatch succeeds only for the four value tags and fails with the unknown-type error for any other |
| AppinfoReading.SubsectionsStep | keypirinha-steam/src/lib/appinfo.py:155-167 | one loop turn (tag, key, value) continues the tree with the entry stored |
| AppinfoReading.ParseEntryStep | keypirinha-steam/src/lib/appinfo.py:164-165 | a key read followed by a value read is an entry read ending where the value ends |
| AppinfoReading.SectionList | keypirinha-steam/src/lib/appinfo.py:132-146 | a section-list read consumes at least one byte; a `0x00` id ends it at once, storing nothing |
| AppinfoReading.AppAt | keypirinha-steam/src/lib/appinfo.py:119-146 | an application record spans more than its 44-byte header and has a 20-byte checksum |
| AppinfoReading.Apps | keypirinha-steam/src/lib/appinfo.py:112-148 | the application loop consumes at least the 4 bytes of the final id |
| AppinfoReading.DecodeAt | keypirinha-steam/src/lib/appinfo.py:87-150 | a decoded document has a known version and the universe 1; fewer than 8 bytes fail as truncated |
| AppinfoReading.DecodeDocument | keypirinha-steam/src/lib/appinfo.py:42 | `loads` yields a document with a known version and the universe 1, and fails as truncated on fewer than 8 bytes; DocumentRoundTrip makes it the inverse of Dumps |
| AppinfoReading.AppsLastApp | keypirinha-steam/src/lib/appinfo.py:113-117 | the four zero bytes of LAST_APP end the loop and store nothing |
| AppinfoReading.SectionListStep | keypirinha-steam/src/lib/appinfo.py:133-146 | one turn of the named-sections loop stores the root tree, with the id added, under the name |
| AppinfoReading.AppsStep | keypirinha-steam/src/lib/appinfo.py:112-148 | one turn of the application loop stores the record under its non-zero id |
| AppinfoReading.SubsectionsUnknownTag | keypirinha-steam/src/lib/appinfo.py:214-216 | a tag that is neither `0x08` nor a value type fails the tree with the unknown-type error, whatever follows |
| AppinfoReading.SubsectionsUniqueKeys | keypirinha-steam/src/lib/appinfo.py:167 | a decoded tree has distinct keys |
| AppinfoReading.SectionListUniqueKeys | keypirinha-steam/src/lib/appinfo.py:141 | decoded named sections have distinct names |
| AppinfoReading.AppsKeys | keypirinha-steam/src/lib/appinfo.py:113-148 | the decoded applications have distinct ids, none of them 0 |
| AppinfoReading.DecodedKeys | keypirinha-steam/src/lib/appinfo.py:112-148 | a decoded document's application ids are distinct and never 0 |
| AppinfoReading.RootFlagReads | keypirinha-steam/src/lib/appinfo.py:157-162 | the root flag reads the same entries, or fails with the same error, and ends exactly one byte later |
| AppinfoReading.DecodedHeader | keypirinha-steam/src/lib/appinfo.py:92-108 | a decoded document's version and universe are the two little-endian numbers in the first 8 bytes |
| AppinfoDecoding.AppinfoDecoder.constructor | keypirinha-steam/src/lib/appinfo.py:68-71 | a new decoder holds the data at offset 0 |
| AppinfoDecoding.AppinfoDecoder.ReadByte | keypirinha-steam/src/lib/appinfo.py:197-200 | gives the byte `ReadByteAt` gives and moves the offset to where it ends |
| AppinfoDecoding.AppinfoDecoder.ReadFixed | keypirinha-steam/src/lib/appinfo.py:171-187 | gives the number `ReadFixedAt` gives and moves the offset by the width |
| AppinfoDecoding.AppinfoDecoder.ReadUInt32 | keypirinha-steam/src/lib/appinfo.py:74 | agrees with `ReadUInt32At`, value and new offset |
| AppinfoDecoding.AppinfoDecoder.ReadUInt64 | keypirinha-steam/src/lib/appinfo.py:75 | agrees with `ReadUInt64At`, value and new offset |
| AppinfoDecoding.AppinfoDecoder.ReadInt32 | keypirinha-steam/src/lib/appinfo.py:189-191 | gives `Integer(32, n)` and the offset that the tag-`0x02` value read gives |
| AppinfoDecoding.AppinfoDecoder.ReadInt64 | keypirinha-steam/src/lib/appinfo.py:193-195 | gives `Integer(64, n)` and the offset that the tag-`0x07` value read gives |
| AppinfoDecoding.AppinfoDecoder.ReadVdfHeader | keypirinha-steam/src/lib/appinfo.py:76 | agrees with `ReadVdfHeaderAt`, value and new offset |
| AppinfoDecoding.AppinfoDecoder.ReadGameHeader | keypirinha-steam/src/lib/appinfo.py:77 | agrees with `ReadGameHeaderAt`, value and new offset |
| AppinfoDecoding.AppinfoDecoder.ReadString | keypirinha-steam/src/lib/appinfo.py:202-212 | the scan loop agrees with `ReadStringAt`: the bytes before the first NUL, and the offset past it |
| AppinfoDecoding.AppinfoDecoder.ReadValue | keypirinha-steam/src/lib/appinfo.py:165 | the dispatch agrees with `ParseValue` for every tag, the unknown-type error included |
| AppinfoDecoding.AppinfoDecoder.ParseSubsections | keypirinha-steam/src/lib/appinfo.py:152-169 | the loop filling `subsection` agrees with `Subsections`, with or without the root flag |
| AppinfoDecoding.AppinfoDecoder.ParseNamedSection | keypirinha-steam/src/lib/appinfo.py:133-146 | one turn either ends the list on id 0, fails as `SectionList` fails, or reads the name and the root tree after the skipped byte, leaves `offset` where the tree ends, and returns the list with that tree, its id added under the section-id key, stored under the name |
| AppinfoDecoding.AppinfoDecoder.ParseSectionList | keypirinha-steam/src/lib/appinfo.py:131-146 | the named-sections loop agrees with `SectionList` |
| AppinfoDecoding.AppinfoDecoder.ParseApp | keypirinha-steam/src/lib/appinfo.py:119-146 | one record agrees with `AppAt` in both dialects |
| AppinfoDecoding.AppinfoDecoder.Decode | keypirinha-steam/src/lib/appinfo.py:87-150 | `decode` agrees with `DecodeAt` from the offset it starts at, and on success leaves `offset` just past the terminating id 0, where the application loop ends |
| AppinfoDecoding.SectionStored | keypirinha-steam/src/lib/appinfo.py:141-146 | the two-step store of lines 141 and 146 continues the section list exactly as a single store of the tree with its id would |
| AppinfoDecoding.Loads | keypirinha-steam/src/lib/appinfo.py:32-42 | `loads` gives `DecodeDocument` of the data |
| AppinfoEncoding.EncodeString | keypirinha-steam/src/lib/appinfo.py:294-300 | the `<n+1>s` pack is the string's length plus one, with a NUL last; ReadEncodedString and StringRoundTrip read it back |
| AppinfoEncoding.EncodeItems | keypirinha-steam/src/lib/appinfo.py:258-274 | the entries of `iter_encode_section` in order; EncodeItemsOk says when it fails, ItemsRoundTrip that the reader gets well-formed entries back, EncodeItemsDropHidden that section-id entries are skipped |
| AppinfoEncoding.EncodeSection | keypirinha-steam/src/lib/appinfo.py:257-280 | `iter_encode_section`; EncodeSectionOk says when it fails, TreeRoundTrip that the reader gets a well-formed tree back, EncodeRootFlag that the root flag adds one `0x08` |
| AppinfoEncoding.EncodeSectionList | keypirinha-steam/src/lib/appinfo.py:244-253 | the named-sections loop; EncodeSectionListOk says when it fails, SectionListRoundTrip that the reader gets well-formed sections back with their ids |
| AppinfoEncoding.EncodeApp | keypirinha-steam/src/lib/appinfo.py:234-253 | a written record is longer than its id and 44-byte header; EncodeAppOk says when it fails, AppRoundTrip that the reader gets a well-formed record back |
| AppinfoEncoding.EncodeApps | keypirinha-steam/src/lib/appinfo.py:229-255 | the application loop; EncodeAppsOk says when it fails, AppsRoundTrip that the reader gets well-formed applications back in order |
| AppinfoEncoding.EncodeInteger | keypirinha-steam/src/lib/appinfo.py:282-292 | an Integer is written exactly when its size is 32 or 64 and its data fits; another size fails with the Integer-size TypeError |
| AppinfoEncoding.EncodeEntry | keypirinha-steam/src/lib/appinfo.py:262-274 | a plain integer or an unrecognised object fails with the unknown-value-type TypeError |
| AppinfoEncoding.SectionIdOf | keypirinha-steam/src/lib/appinfo.py:247-249 | the id written is the one stored under the section-id key; a non-dictionary fails as not subscriptable; a missing id fails as a KeyError |
| AppinfoEncoding.Fit20 | keypirinha-steam/src/lib/appinfo.py:236-238 | a `20s` pack is 20 bytes: the checksum cut to 20, or padded with NULs |
| AppinfoEncoding.EncodeGameHeader | keypirinha-steam/src/lib/appinfo.py:236-238 | the header pack is 44 bytes, and for a 20-byte checksum it is the layout the decoder reads |
| AppinfoEncoding.Dumps | keypirinha-steam/src/lib/appinfo.py:54-63 | the output starts with the packed version and universe and ends with the four zero bytes of LAST_APP |
| AppinfoEncoding.EncodeEntryOk | keypirinha-steam/src/lib/appinfo.py:262-274 | an entry is written exactly when its value is encodable at every depth |
| AppinfoEncoding.EncodeSectionOk | keypirinha-steam/src/lib/appinfo.py:257-280 | a tree is written exactly when it is encodable, with or without the root flag |
| AppinfoEncoding.EncodeItemsOk | keypirinha-steam/src/lib/appinfo.py:258-274 | the entries are written exactly when every value not under the section-id key is encodable |
| AppinfoEncoding.EncodeSectionListOk | keypirinha-steam/src/lib/appinfo.py:244-251 | the named sections are written exactly when each has a packable id and an encodable tree |
| AppinfoEncoding.EncodeAppOk | keypirinha-steam/src/lib/appinfo.py:234-253 | an application is written exactly when its record is encodable in its dialect |
| AppinfoEncoding.EncodeAppsOk | keypirinha-steam/src/lib/appinfo.py:229-253 | the applications are written exactly when each one is encodable |
| AppinfoEncoding.DumpsOk | keypirinha-steam/src/lib/appinfo.py:54-63 | `dumps` raises exactly when some application cannot be encoded |
| AppinfoEncoding.SectionIdNotEmitted | keypirinha-steam/src/lib/appinfo.py:258-260 | removing an entry under the section-id key leaves a tree's encoding unchanged |
| AppinfoEncoding.EncodeItemsDropHidden | keypirinha-steam/src/lib/appinfo.py:258-260 | the same, for the entries from any position up to the removed one |
| AppinfoEncoding.EncodeItemsShift | keypirinha-steam/src/lib/appinfo.py:258-260 | past the removed entry, the two trees are written identically |
| AppinfoEncoding.EncodeRootFlag | keypirinha-steam/src/lib/appinfo.py:276-280 | the root flag adds exactly one more `0x08` and fails exactly when the plain tree fails |
| AppinfoRoundTrip.ReadPackedUInt32 | keypirinha-steam/src/lib/appinfo.py:74 | a `<I` read over a packed number gives it back and advances by 4 |
| AppinfoRoundTrip.ReadPackedUInt64 | keypirinha-steam/src/lib/appinfo.py:75 | a `<Q` read over a packed number gives it back and advances by 8 |
| AppinfoRoundTrip.ReadPackedVdfHeader | keypirinha-steam/src/lib/appinfo.py:227 | the header read over the encoder's first 8 bytes gives back the version and universe |
| AppinfoRoundTrip.ReadPackedGameHeader | keypirinha-steam/src/lib/appinfo.py:236-238 | reading back a packed application header gives the same six fields |
| AppinfoRoundTrip.ReadEncodedString | keypirinha-steam/src/lib/appinfo.py:294-300 | reading back `encode_string(s)` at any offset gives `s` when `s` has no NUL, and moves past the NUL |
| AppinfoRoundTrip.StringRoundTrip | keypirinha-steam/src/lib/appinfo.py:202-212 | `read_string` applied to `encode_string(s)` and any further bytes gives back `s`, and the offset `len(s) + 1` |
| AppinfoRoundTrip.EntryRoundTrip | keypirinha-steam/src/lib/appinfo.py:262-272 | an encoded entry reads back as its tag, key and value, ending where its encoding ends |
| AppinfoRoundTrip.ValueRoundTrip | keypirinha-steam/src/lib/appinfo.py:165 | the payload after a key parses back, under the entry's tag, to the value |
| AppinfoRoundTrip.ItemsRoundTrip | keypirinha-steam/src/lib/appinfo.py:155-169 | the rest of an encoded tree reads back to the whole tree in order, ending after the `0x08` plus one for a root tree |
| AppinfoRoundTrip.ItemsEnd | keypirinha-steam/src/lib/appinfo.py:157-162 | the closing `0x08` ends the tree, one byte later for a root tree |
| AppinfoRoundTrip.ItemsStep | keypirinha-steam/src/lib/appinfo.py:164-167 | the next encoded entry reads back and is stored after the entries before it |
| AppinfoRoundTrip.PutNextEntry | keypirinha-steam/src/lib/appinfo.py:167 | storing the next entry of a dictionary with distinct keys into its prefix extends the prefix |
| AppinfoRoundTrip.TreeRoundTrip | keypirinha-steam/src/lib/appinfo.py:257-280 | a well-formed tree encodes, and `parse_subsections` with the same root flag reads its encoding back to the same entries in the same order |
| AppinfoRoundTrip.EncodedTreeReads | keypirinha-steam/src/lib/appinfo.py:152-169 | the reading half of the tree round trip, ending exactly where the encoding ends |
| AppinfoRoundTrip.WellFormedIsEncodable | keypirinha-steam/src/lib/appinfo.py:262-274 | every well-formed value is one the encoder accepts |
| AppinfoRoundTrip.PackSectionId | keypirinha-steam/src/lib/appinfo.py:249 | `struct.pack('<H', id)` of an id below 256 is the id byte followed by `0x00` |
| AppinfoRoundTrip.NamedSectionEncodes | keypirinha-steam/src/lib/appinfo.py:244-251 | a decoded named section is encodable, its id is the one written, and its tree is written as if the id entry were absent |
| AppinfoRoundTrip.NamedSectionReads | keypirinha-steam/src/lib/appinfo.py:133-141 | an encoded named section reads back as the id byte, the skipped byte, the name and the root tree |
| AppinfoRoundTrip.SectionListRoundTrip | keypirinha-steam/src/lib/appinfo.py:132-146 | an encoded section list reads back with every name, tree and id, in order, ending after the `0x00` byte |
| AppinfoRoundTrip.SectionListEnd | keypirinha-steam/src/lib/appinfo.py:134-135 | the LAST_SECTION byte the encoder writes ends the decoder's section loop |
| AppinfoRoundTrip.SectionListLayout | keypirinha-steam/src/lib/appinfo.py:244-251 | the encoding of one named section is the `<H` id, the name, the root tree, then the rest |
| AppinfoRoundTrip.SectionListTurn | keypirinha-steam/src/lib/appinfo.py:133-146 | the next encoded section reads back and is stored after the sections before it |
| AppinfoRoundTrip.AppEncodes | keypirinha-steam/src/lib/appinfo.py:234-253 | a well-formed record is one the encoder accepts |
| AppinfoRoundTrip.AppRoundTrip | keypirinha-steam/src/lib/appinfo.py:113-146 | an encoded application reads back as its id and its record, in either dialect |
| AppinfoRoundTrip.AppsRoundTrip | keypirinha-steam/src/lib/appinfo.py:112-148 | the encoded applications read back in order, ending after LAST_APP |
| AppinfoRoundTrip.AppsEnd | keypirinha-steam/src/lib/appinfo.py:255 | the LAST_APP the encoder writes ends the decoder's application loop |
| AppinfoRoundTrip.AppsTurn | keypirinha-steam/src/lib/appinfo.py:112-148 | the next encoded application reads back and is stored after those before it |
| AppinfoRoundTrip.VersionGate | keypirinha-steam/src/lib/appinfo.py:101-105 | an unknown version fails with that version; a known version with another universe fails with that universe; otherwise the document is the applications read from offset 8 |
| AppinfoRoundTrip.DocumentRoundTrip | keypirinha-steam/src/lib/appinfo.py:32-63 | a well-formed document is written by `dumps`, and `loads` of the output followed by any bytes gives it back |
| AppinfoExamples.OneByteStringEntry | keypirinha-steam/src/lib/appinfo.py:164-167 | a string entry with a one-byte key and value is read and stored into the tree |
| AppinfoExamples.RepeatedKeyPuts | keypirinha-steam/src/lib/appinfo.py:167 | storing under `a`, `c`, then `a` gives `a` with the last value in the first place, then `c` |
| AppinfoExamples.RepeatedKeyOverwrites | keypirinha-steam/src/lib/appinfo.py:167 | a tree holding the key `a` twice decodes with the later value in the first position, and no error |
| AppinfoExamples.RootSkipUnchecked | keypirinha-steam/src/lib/appinfo.py:157-162 | a root tree that is a lone `0x08` at the end of the data is read, ending past the end |
| AppinfoExamples.SectionIdGapUnchecked | keypirinha-steam/src/lib/appinfo.py:137-146 | the byte after a section id is skipped whatever it holds, and the id is stored into the section tree |
| AppinfoExamples.EmptyDocumentEncodes | keypirinha-steam/src/lib/appinfo.py:225-255 | an empty single-tree document is written as the 12 bytes of its header and LAST_APP |
| AppinfoExamples.EmptyDocumentDecodes | keypirinha-steam/src/lib/appinfo.py:87-150 | those 12 bytes decode to the empty document |
| AppinfoExamples.SectionIdEntryNotWritten | keypirinha-steam/src/lib/appinfo.py:258-260 | a root tree holding only the section-id entry is written as two `0x08` bytes |

## Left out

- `load` and `dump` (`appinfo.py:22-29`, `45-51`) only read or write a file object. The model starts from the bytes and ends at the bytes.
- The `wrapper` parameter (`appinfo.py:22-42`, `69`) is not modelled. Every dictionary is the ordered sequence of pairs that `dict` gives.
- The `isinstance` checks of `loads` and `dumps` (`appinfo.py:39-40`, `60-61`) are not modelled, because Dafny's types fix the argument types.
- Error messages are not modelled. Each failure is one constructor of `DecodeError` or `EncodeError`. The universe error carries the universe. The source's message prints the version instead (`appinfo.py:105`).
- The header-length checks at `appinfo.py:93-97` and `121-125` are not modelled. They cannot fail: `unpack_from` either returns every field or raises, and that case is the `Truncated` error.
- The internal keys `b'__vdf_version'` and `b'__vdf_universe'` are the fields `version` and `universe` of `Document`. They are not entries of the application mapping. The encoder's skip of them (`appinfo.py:229-232`) therefore holds by construction. The KeyError of `dumps` on a mapping without `b'__vdf_version'` (`appinfo.py:223`) is not modelled.
- Application ids and header fields are typed `u32`/`u64` on both sides. The struct.error of `dumps` for an id or header field out of range, or not a number, is not modelled. The checksum is typed `Bytes` and modelled with the `20s` cut and NUL padding (`Fit20`); its struct.error for a value that is not a byte string is excluded by the types, like the errors above. The section id and the tree values are modelled with their errors.
- AppinfoReading.ReadStringAt: a string with no NUL after it stops decoding with `Unterminated`. The source's `read_string` returns `None` and decoding goes on. No later read can then find app id 0, so the source fails too, but with another error, or with `None` as a key or value first.
- AppinfoDecoding.AppinfoDecoder.ReadByte: this and every other decoder method leave the offset unspecified after an error. The source raises there, and the decoder is not used again.
- AppinfoRoundTrip.DocumentRoundTrip: the round trip needs section ids below 256. An id from 256 to 65535 is written by `<H` as two bytes, and the decoder reads only the low one. The decoder never produces such an id.
- Python's lazy generators are not modelled. `b''.join` consumes them whole, so an exception anywhere means no output, and that is what `Err` models.
