/** What the Appinfo decoder computes, as functions of the input buffer and a
    read offset. Each returns the value read and the offset after it, or the
    error that stops the decoder. The decoder class in AppinfoDecoder is
    proved to follow these functions step by step. */
module AppinfoReading {
  import opened ByteStrings
  import opened Results
  import opened AppinfoValues

  /** Why decoding stops. `Truncated` is the IndexError or struct.error of a
      read past the end; `Unterminated` is a string read that finds no NUL;
      the other three are the source's ValueErrors. */
  datatype DecodeError =
    | Truncated
    | Unterminated
    | UnknownType(tag: byte)
    | UnknownVersion(version: u32)
    | UnknownUniverse(universe: u32)

  /** A read: the value and the offset just after it, or an error. */
  type Read<T> = Result<(T, nat), DecodeError>

  // ---------------------------------------------------------------------
  // Cursor reads

  /** `read_byte`: the byte at `off`. */
  function ReadByteAt(data: Bytes, off: nat): (r: Read<byte>)
    ensures r.Ok? <==> off < |data|
    ensures r.Ok? ==> r.value.0 == data[off] && r.value.1 == off + 1
  {
    if off < |data| then Ok((data[off], off + 1)) else Err(Truncated)
  }

  /** The little-endian number in the `width` bytes from `off` on, read in
      place as `unpack_from(self.data, self.offset)` reads it. `Unpack` is the
      same number on a byte string of its own, which is what `struct.pack`
      produces; the readers here and in the decoder class use this form
      because it indexes `data` directly, with no slice to reason about, and
      `UnpackAtSlice` states that the two agree. */
  function UnpackAt(data: Bytes, off: nat, width: nat): (r: nat)
    requires off + width <= |data|
    ensures r < Pow256(width)
    decreases width
  {
    if width == 0 then 0 else data[off] + 256 * UnpackAt(data, off + 1, width - 1)
  }

  /** `UnpackAt` is `Unpack` of the bytes it reads. */
  lemma {:induction false} UnpackAtSlice(data: Bytes, off: nat, width: nat)
    requires off + width <= |data|
    ensures UnpackAt(data, off, width) == Unpack(data[off..off + width])
    decreases width
  {
    if width > 0 {
      UnpackAtSlice(data, off + 1, width - 1);
      assert data[off..off + width][1..] == data[off + 1..off + width];
    }
  }

  /** A struct read of `width` bytes at `off`, as one little-endian number. */
  function ReadFixedAt(data: Bytes, off: nat, width: nat): (r: Read<nat>)
    ensures r.Ok? <==> off + width <= |data|
    ensures r.Ok? ==> r.value.0 < Pow256(width) && r.value.1 == off + width
  {
    if off + width <= |data| then Ok((UnpackAt(data, off, width), off + width))
    else Err(Truncated)
  }

  /** A fixed-width read gives the number whose packing lies at `off`. */
  lemma ReadFixedAtPacked(data: Bytes, off: nat, width: nat)
    requires off + width <= |data|
    ensures At(data, off, Pack(ReadFixedAt(data, off, width).value.0, width))
  {
    UnpackAtSlice(data, off, width);
    PackUnpack(data[off..off + width]);
  }

  /** `_read_int32`, a `<I` read. */
  function ReadUInt32At(data: Bytes, off: nat): (r: Read<u32>)
    ensures r.Ok? <==> off + 4 <= |data|
    ensures r.Ok? ==> r.value.1 == off + 4
  {
    Pow256Values();
    match ReadFixedAt(data, off, 4)
    case Err(e) => Err(e)
    case Ok((n, o)) => Ok((n, o))
  }

  /** `_read_int64`, a `<Q` read. */
  function ReadUInt64At(data: Bytes, off: nat): (r: Read<u64>)
    ensures r.Ok? <==> off + 8 <= |data|
    ensures r.Ok? ==> r.value.1 == off + 8
  {
    Pow256Values();
    match ReadFixedAt(data, off, 8)
    case Err(e) => Err(e)
    case Ok((n, o)) => Ok((n, o))
  }

  /** The `<I` and `<Q` reads are little-endian: the bytes at `off` are the
      packing of the number read. */
  lemma ReadUIntPacked(data: Bytes, off: nat)
    ensures ReadUInt32At(data, off).Ok? ==> At(data, off, Pack(ReadUInt32At(data, off).value.0, 4))
    ensures ReadUInt64At(data, off).Ok? ==> At(data, off, Pack(ReadUInt64At(data, off).value.0, 8))
  {
    if off + 4 <= |data| {
      ReadFixedAtPacked(data, off, 4);
    }
    if off + 8 <= |data| {
      ReadFixedAtPacked(data, off, 8);
    }
  }

  /** `read_vdf_header`, a `<2I` read: version, then universe. */
  function ReadVdfHeaderAt(data: Bytes, off: nat): (r: Read<(u32, u32)>)
    ensures r.Ok? <==> off + 8 <= |data|
    ensures r.Ok? ==> r.value.1 == off + 8
  {
    if off + 8 <= |data| then
      Ok(((ReadUInt32At(data, off).value.0, ReadUInt32At(data, off + 4).value.0), off + 8))
    else Err(Truncated)
  }

  /** The `<2I` read gives the two numbers whose packings lie at `off`. */
  lemma ReadVdfHeaderPacked(data: Bytes, off: nat)
    requires off + 8 <= |data|
    ensures var (version, universe) := ReadVdfHeaderAt(data, off).value.0;
            At(data, off, Pack(version, 4) + Pack(universe, 4))
  {
    var (version, universe) := ReadVdfHeaderAt(data, off).value.0;
    ReadUIntPacked(data, off);
    ReadUIntPacked(data, off + 4);
    AtSplit(data, off, Pack(version, 4), Pack(universe, 4));
  }

  /** `read_game_header`, a `<3IQ20sI` read of 44 bytes. */
  function ReadGameHeaderAt(data: Bytes, off: nat): (r: Read<AppHeader>)
    ensures r.Ok? <==> off + 44 <= |data|
    ensures r.Ok? ==> r.value.1 == off + 44 && |r.value.0.checksum| == 20
  {
    if off + 44 <= |data| then
      var h := AppHeader(
        ReadUInt32At(data, off).value.0,
        ReadUInt32At(data, off + 4).value.0,
        ReadUInt32At(data, off + 8).value.0,
        ReadUInt64At(data, off + 12).value.0,
        data[off + 20..off + 40],
        ReadUInt32At(data, off + 40).value.0);
      Ok((h, off + 44))
    else Err(Truncated)
  }

  /** The header read gives the header whose layout lies at `off`. */
  lemma ReadGameHeaderPacked(data: Bytes, off: nat)
    requires off + 44 <= |data|
    ensures At(data, off, HeaderLayout(ReadGameHeaderAt(data, off).value.0))
  {
    var h := ReadGameHeaderAt(data, off).value.0;
    ReadUIntPacked(data, off);
    ReadUIntPacked(data, off + 4);
    ReadUIntPacked(data, off + 8);
    ReadUIntPacked(data, off + 12);
    ReadUIntPacked(data, off + 40);
    assert At(data, off + 20, h.checksum);
    var fields := Pack(h.size, 4);
    AtJoin(data, off, fields, Pack(h.state, 4), off + 4);
    fields := fields + Pack(h.state, 4);
    AtJoin(data, off, fields, Pack(h.lastUpdate, 4), off + 8);
    fields := fields + Pack(h.lastUpdate, 4);
    AtJoin(data, off, fields, Pack(h.accessToken, 8), off + 12);
    fields := fields + Pack(h.accessToken, 8);
    AtJoin(data, off, fields, h.checksum, off + 20);
    fields := fields + h.checksum;
    AtJoin(data, off, fields, Pack(h.changeNumber, 4), off + 40);
  }

  /** The position of the first NUL at or after `i`, if there is one. */
  function FindNul(data: Bytes, i: nat): (r: Option<nat>)
    ensures r.Some? ==> i <= r.value < |data| && data[r.value] == 0
    decreases |data| - i
  {
    if i >= |data| then None
    else if data[i] == 0 then Some(i)
    else FindNul(data, i + 1)
  }

  /** `FindNul` finds the first NUL: none lies before it, and when it finds
      nothing there is none at all. */
  lemma {:induction false} FindNulFirst(data: Bytes, i: nat)
    ensures FindNul(data, i).Some? ==> forall j :: i <= j < FindNul(data, i).value ==> data[j] != 0
    ensures FindNul(data, i).None? ==> forall j :: i <= j < |data| ==> data[j] != 0
    decreases |data| - i
  {
    if i < |data| && data[i] != 0 {
      FindNulFirst(data, i + 1);
    }
  }

  /** `read_string`: the bytes before the first NUL at or after `off`, and
      the offset just past that NUL; an error when there is no NUL. */
  function ReadStringAt(data: Bytes, off: nat): (r: Read<Bytes>)
    ensures r.Ok? ==> r.value.1 == off + |r.value.0| + 1
    ensures r.Err? ==> r.error == Unterminated
  {
    match FindNul(data, off)
    case None => Err(Unterminated)
    case Some(z) => Ok((data[off..z], z + 1))
  }

  /** A string read succeeds exactly when a NUL follows `off`; it gives the
      NUL-free bytes before the first one, and the NUL lies right after them. */
  lemma ReadStringAtSpec(data: Bytes, off: nat)
    ensures ReadStringAt(data, off).Ok? <==> exists j :: off <= j < |data| && data[j] == 0
    ensures ReadStringAt(data, off).Ok? ==>
              var s := ReadStringAt(data, off).value.0;
              NulFree(s) && At(data, off, s + [0])
  {
    FindNulFirst(data, off);
    var f := FindNul(data, off);
    if f.Some? {
      var z := f.value;
      assert data[off..z + 1] == data[off..z] + [0];
    }
  }

  // ---------------------------------------------------------------------
  // Section trees

  predicate IsValueType(tag: byte) {
    tag == TYPE_SECTION || tag == TYPE_STRING || tag == TYPE_INT32 || tag == TYPE_INT64
  }

  /** `parse_subsections`: the entries of one tree, from its first tag byte
      to its 0x08, stored into `acc` one by one as `subsection[key] = value`
      does. A root tree skips one more byte after the 0x08. */
  function Subsections(data: Bytes, off: nat, root: bool, acc: seq<Entry>): (r: Read<seq<Entry>>)
    ensures r.Ok? ==> r.value.1 > off
    decreases |data| - off, 0
  {
    match ReadByteAt(data, off)
    case Err(e) => Err(e)
    case Ok((tag, o1)) =>
      if tag == SECTION_END then
        Ok((acc, if root then o1 + 1 else o1))
      else
        match ParseEntry(data, o1, tag)
        case Err(e) => Err(e)
        case Ok(((key, value), o3)) => Subsections(data, o3, root, Put(acc, key, value))
  }

  /** One entry of `parse_subsections` after its tag byte: the key, then the
      value the tag's parser reads. A key that cannot be read stops the loop
      first, except that an unknown tag is reported as such. */
  function ParseEntry(data: Bytes, off: nat, tag: byte): (r: Read<(Bytes, Value)>)
    ensures r.Ok? ==> r.value.1 > off
    ensures r.Ok? ==> IsValueType(tag)
    ensures !IsValueType(tag) ==> r == Err(UnknownType(tag))
    decreases |data| - off, 2
  {
    match ReadStringAt(data, off)
    case Err(e) => if IsValueType(tag) then Err(e) else Err(UnknownType(tag))
    case Ok((key, o2)) =>
      match ParseValue(data, o2, tag)
      case Err(e) => Err(e)
      case Ok((value, o3)) => Ok(((key, value), o3))
  }

  /** The `value_parsers` dispatch on a tag byte: a nested tree, a string,
      an Integer of size 32 or of size 64; any other tag fails. */
  function ParseValue(data: Bytes, off: nat, tag: byte): (r: Read<Value>)
    ensures r.Ok? ==> r.value.1 > off
    ensures r.Ok? ==> IsValueType(tag)
    ensures !IsValueType(tag) ==> r == Err(UnknownType(tag))
    decreases |data| - off, 1
  {
    if tag == TYPE_SECTION then
      match Subsections(data, off, false, [])
      case Err(e) => Err(e)
      case Ok((t, o)) => Ok((Section(t), o))
    else if tag == TYPE_STRING then
      match ReadStringAt(data, off)
      case Err(e) => Err(e)
      case Ok((s, o)) => Ok((Str(s), o))
    else if tag == TYPE_INT32 then
      match ReadUInt32At(data, off)
      case Err(e) => Err(e)
      case Ok((n, o)) => Ok((Integer(32, n), o))
    else if tag == TYPE_INT64 then
      match ReadUInt64At(data, off)
      case Err(e) => Err(e)
      case Ok((n, o)) => Ok((Integer(64, n), o))
    else Err(UnknownType(tag))
  }

  /** One turn of the `parse_subsections` loop: a value tag, then a key and a
      value, stored into the tree built so far. */
  lemma {:induction false} SubsectionsStep(data: Bytes, off: nat, root: bool, acc: seq<Entry>, tag: byte, key: Bytes, value: Value, next: nat, acc': seq<Entry>)
    requires IsValueType(tag)
    requires ReadByteAt(data, off) == Ok((tag, off + 1))
    requires ParseEntry(data, off + 1, tag) == Ok(((key, value), next))
    requires Put(acc, key, value) == acc'
    ensures Subsections(data, off, root, acc) == Subsections(data, next, root, acc')
  {
  }

  /** `parse_subsections` after a tag byte: a key read, then a value read. */
  lemma ParseEntryStep(data: Bytes, off: nat, tag: byte, key: Bytes, o2: nat, value: Value, o3: nat)
    requires ReadStringAt(data, off) == Ok((key, o2))
    requires ParseValue(data, o2, tag) == Ok((value, o3))
    ensures ParseEntry(data, off, tag) == Ok(((key, value), o3))
  {
  }

  // ---------------------------------------------------------------------
  // Applications and the document

  /** The named-sections dialect's loop: a section id byte (0 ends the
      list), one skipped byte, the section name, then a root tree, stored
      under the name with the id added under SECTION_ID_KEY. */
  function SectionList(data: Bytes, off: nat, acc: seq<Entry>): (r: Read<seq<Entry>>)
    ensures r.Ok? ==> r.value.1 > off
    ensures off < |data| && data[off] == LAST_SECTION[0] ==> r == Ok((acc, off + 1))
    decreases |data| - off
  {
    match ReadByteAt(data, off)
    case Err(e) => Err(e)
    case Ok((sectionId, o1)) =>
      if sectionId == 0 then Ok((acc, o1))
      else
        match ReadStringAt(data, o1 + 1)
        case Err(e) => Err(e)
        case Ok((name, o2)) =>
          match Subsections(data, o2, true, [])
          case Err(e) => Err(e)
          case Ok((tree, o3)) =>
            SectionList(data, o3, Put(acc, name, Section(Put(tree, SECTION_ID_KEY, Int(sectionId)))))
  }

  /** One application record after its id: the fixed header, then the
      sections in the dialect `version` selects. */
  function AppAt(data: Bytes, off: nat, version: u32): (r: Read<App>)
    ensures r.Ok? ==> r.value.1 > off + 44 && |r.value.0.header.checksum| == 20
  {
    match ReadGameHeaderAt(data, off)
    case Err(e) => Err(e)
    case Ok((header, o1)) =>
      var sections := if version == VERSION_SINGLE_TREE then Subsections(data, o1, false, [])
                      else SectionList(data, o1, []);
      match sections
      case Err(e) => Err(e)
      case Ok((s, o2)) => Ok((App(header, s), o2))
  }

  /** The application loop of `decode`: an id (0 ends the loop and is not
      stored), then the record, stored under its id as `parsed[app_id] = app`. */
  function Apps(data: Bytes, off: nat, version: u32, acc: seq<(u32, App)>): (r: Read<seq<(u32, App)>>)
    ensures r.Ok? ==> r.value.1 >= off + 4
    decreases |data| - off
  {
    match ReadUInt32At(data, off)
    case Err(e) => Err(e)
    case Ok((appId, o1)) =>
      if appId == 0 then
        Ok((acc, o1))
      else
        match AppAt(data, o1, version)
        case Err(e) => Err(e)
        case Ok((app, o2)) => Apps(data, o2, version, Put(acc, appId, app))
  }

  /** `decode` from offset `off`: the header, checked against the known
      versions and the universe, then the applications. Bytes after the
      terminating id 0 are not read. */
  function DecodeAt(data: Bytes, off: nat): (r: Result<Document, DecodeError>)
    ensures r.Ok? ==> r.value.version in VDF_VERSIONS && r.value.universe == VDF_UNIVERSE
    ensures |data| < off + 8 ==> r == Err(Truncated)
  {
    match ReadVdfHeaderAt(data, off)
    case Err(e) => Err(e)
    case Ok(((version, universe), o)) =>
      if version !in VDF_VERSIONS then Err(UnknownVersion(version))
      else if universe != VDF_UNIVERSE then Err(UnknownUniverse(universe))
      else
        match Apps(data, o, version, [])
        case Err(e) => Err(e)
        case Ok((apps, _)) => Ok(Document(version, universe, apps))
  }

  /** `loads`: a fresh decoder decodes from the start of the data. */
  function DecodeDocument(data: Bytes): (r: Result<Document, DecodeError>)
    ensures r.Ok? ==> r.value.version in VDF_VERSIONS && r.value.universe == VDF_UNIVERSE
    ensures |data| < 8 ==> r == Err(Truncated)
  {
    DecodeAt(data, 0)
  }

  // ---------------------------------------------------------------------
  // What the decoder guarantees about its results

  /** An application id of 0, the LAST_APP bytes, ends the application loop
      without being stored. */
  lemma AppsLastApp(data: Bytes, off: nat, version: u32, acc: seq<(u32, App)>)
    requires At(data, off, LAST_APP)
    ensures Apps(data, off, version, acc) == Ok((acc, off + 4))
  {
    var id := ReadUInt32At(data, off).value.0;
    ReadUIntPacked(data, off);
    UnpackPack(id, 4);
    assert Unpack(LAST_APP) == 0;
    var r := Apps(data, off, version, acc);
    assert r == Ok((acc, off + 4));
  }

  /** One turn of the named-sections loop: a section id other than 0, one
      skipped byte, a name and a root tree, stored under the name with the id. */
  lemma SectionListStep(data: Bytes, off: nat, acc: seq<Entry>, sectionId: byte, o1: nat, name: Bytes, o2: nat, tree: seq<Entry>, o3: nat, stored: Value)
    requires sectionId != 0 && ReadByteAt(data, off) == Ok((sectionId, o1))
    requires ReadStringAt(data, o1 + 1) == Ok((name, o2))
    requires Subsections(data, o2, true, []) == Ok((tree, o3))
    requires stored == Section(Put(tree, SECTION_ID_KEY, Int(sectionId)))
    ensures SectionList(data, off, acc) == SectionList(data, o3, Put(acc, name, stored))
  {
  }

  /** One turn of the application loop: an id other than 0 and a record,
      stored under the id. */
  lemma AppsStep(data: Bytes, off: nat, version: u32, acc: seq<(u32, App)>, appId: u32, o1: nat, app: App, o2: nat)
    requires appId != 0 && ReadUInt32At(data, off) == Ok((appId, o1))
    requires AppAt(data, o1, version) == Ok((app, o2))
    ensures Apps(data, off, version, acc) == Apps(data, o2, version, Put(acc, appId, app))
  {
  }

  /** A tag byte that is neither 0x08 nor a known value type stops the tree
      with the unknown-type error, whatever follows it. */
  lemma SubsectionsUnknownTag(data: Bytes, off: nat, root: bool, acc: seq<Entry>)
    requires off < |data| && data[off] != SECTION_END && !IsValueType(data[off])
    ensures Subsections(data, off, root, acc) == Err(UnknownType(data[off]))
  {
  }

  /** The tree `parse_subsections` returns has distinct keys: each entry is
      stored with `subsection[key] = value`. */
  lemma {:induction false} SubsectionsUniqueKeys(data: Bytes, off: nat, root: bool, acc: seq<Entry>)
    requires UniqueKeys(acc)
    ensures Subsections(data, off, root, acc).Ok? ==> UniqueKeys(Subsections(data, off, root, acc).value.0)
    decreases |data| - off
  {
    var r := Subsections(data, off, root, acc);
    match ReadByteAt(data, off)
    case Err(_) =>
    case Ok((tag, o1)) =>
      if tag != SECTION_END {
        match ParseEntry(data, o1, tag)
        case Err(_) =>
        case Ok(((key, value), o3)) =>
          PutUnique(acc, key, value);
          SubsectionsUniqueKeys(data, o3, root, Put(acc, key, value));
          assert r == Subsections(data, o3, root, Put(acc, key, value));
      }
  }

  /** The named sections of an application have distinct names. */
  lemma {:induction false} SectionListUniqueKeys(data: Bytes, off: nat, acc: seq<Entry>)
    requires UniqueKeys(acc)
    ensures SectionList(data, off, acc).Ok? ==> UniqueKeys(SectionList(data, off, acc).value.0)
    decreases |data| - off
  {
    var r := SectionList(data, off, acc);
    match ReadByteAt(data, off)
    case Err(_) =>
    case Ok((sectionId, o1)) =>
      if sectionId != 0 {
        match ReadStringAt(data, o1 + 1)
        case Err(_) =>
        case Ok((name, o2)) =>
          match Subsections(data, o2, true, [])
          case Err(_) =>
          case Ok((tree, o3)) =>
            var section := Section(Put(tree, SECTION_ID_KEY, Int(sectionId)));
            PutUnique(acc, name, section);
            SectionListUniqueKeys(data, o3, Put(acc, name, section));
            assert r == SectionList(data, o3, Put(acc, name, section));
      }
  }

  /** The applications of a document have distinct ids, none of them 0. */
  lemma {:induction false} AppsKeys(data: Bytes, off: nat, version: u32, acc: seq<(u32, App)>)
    requires UniqueKeys(acc) && 0 !in Keys(acc)
    ensures Apps(data, off, version, acc).Ok? ==>
              UniqueKeys(Apps(data, off, version, acc).value.0) && 0 !in Keys(Apps(data, off, version, acc).value.0)
    decreases |data| - off
  {
    var r := Apps(data, off, version, acc);
    match ReadUInt32At(data, off)
    case Err(_) =>
    case Ok((appId, o1)) =>
      if appId != 0 {
        match AppAt(data, o1, version)
        case Err(_) =>
        case Ok((app, o2)) =>
          PutUnique(acc, appId, app);
          PutKeys(acc, appId, app);
          AppsKeys(data, o2, version, Put(acc, appId, app));
          assert r == Apps(data, o2, version, Put(acc, appId, app));
      }
  }

  /** A decoded document's applications have distinct ids other than 0. */
  lemma DecodedKeys(data: Bytes)
    ensures DecodeDocument(data).Ok? ==>
              UniqueKeys(DecodeDocument(data).value.apps) && 0 !in Keys(DecodeDocument(data).value.apps)
  {
    var r := DecodeDocument(data);
    if r.Ok? {
      var empty: seq<(u32, App)> := [];
      assert Keys(empty) == [];
      AppsKeys(data, 8, r.value.version, empty);
      assert r == Ok(Document(r.value.version, r.value.universe, Apps(data, 8, r.value.version, empty).value.0));
    }
  }

  /** The root flag changes nothing but the end offset: a root tree reads
      the same entries, or fails with the same error, and ends one byte
      later, on the skipped byte after its 0x08. */
  lemma {:induction false} RootFlagReads(data: Bytes, off: nat, acc: seq<Entry>)
    ensures Subsections(data, off, true, acc) ==
              match Subsections(data, off, false, acc)
              case Ok((t, o)) => Ok((t, o + 1))
              case Err(e) => Err(e)
    decreases |data| - off
  {
    match ReadByteAt(data, off)
    case Err(_) =>
    case Ok((tag, o1)) =>
      if tag != SECTION_END {
        match ParseEntry(data, o1, tag)
        case Err(_) =>
        case Ok(((key, value), o3)) =>
          RootFlagReads(data, o3, Put(acc, key, value));
          var t := Subsections(data, off, true, acc);
          var f := Subsections(data, off, false, acc);
          assert t == Subsections(data, o3, true, Put(acc, key, value));
          assert f == Subsections(data, o3, false, Put(acc, key, value));
      }
  }

  /** A decoded document carries the version and the universe that the
      first eight bytes hold, as two `<I` numbers. */
  lemma DecodedHeader(data: Bytes)
    ensures DecodeDocument(data).Ok? ==>
              var d := DecodeDocument(data).value;
              At(data, 0, Pack(d.version, 4) + Pack(d.universe, 4))
  {
    var r := DecodeDocument(data);
    if r.Ok? {
      var h := ReadVdfHeaderAt(data, 0).value.0;
      ReadVdfHeaderPacked(data, 0);
      assert r.value.version == h.0 && r.value.universe == h.1;
    }
  }
}
