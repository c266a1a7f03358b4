/** The decoder as the source writes it: an object holding the input and a
    read offset, whose readers each consume bytes from the offset on and
    move it past them. Each method is proved to compute what the matching
    function of AppinfoReading computes from the offset it started at, and
    to leave the offset where that function says the read ends. */
module AppinfoDecoding {
  import opened ByteStrings
  import opened Results
  import opened AppinfoValues
  import opened AppinfoReading

  /** A method's result together with the offset it leaves, in the shape
      of a `Read`. After an error the source raises, so the offset is not
      part of the outcome. */
  function Outcome<T>(r: Result<T, DecodeError>, off: nat): Read<T> {
    match r
    case Ok(v) => Ok((v, off))
    case Err(e) => Err(e)
  }

  class AppinfoDecoder {
    /** The incoming bytes. */
    const data: Bytes
    /** The parsing offset. */
    var offset: nat

    constructor(data: Bytes)
      ensures this.data == data && offset == 0
    {
      this.data := data;
      offset := 0;
    }

    /** `read_byte`: an IndexError past the end. */
    method ReadByte() returns (r: Result<byte, DecodeError>)
      modifies this
      ensures Outcome(r, offset) == ReadByteAt(data, old(offset))
    {
      if offset < |data| {
        r := Ok(data[offset]);
        offset := offset + 1;
      } else {
        r := Err(Truncated);
      }
    }

    /** The reader `make_custom_reader` builds for a one-number format of
      `width` bytes: `unpack_from` at the offset, then the offset moves on
      by the format's size. */
    method ReadFixed(width: nat) returns (r: Result<nat, DecodeError>)
      modifies this
      ensures Outcome(r, offset) == ReadFixedAt(data, old(offset), width)
    {
      if offset + width <= |data| {
        r := Ok(UnpackAt(data, offset, width));
        offset := offset + width;
      } else {
        r := Err(Truncated);
      }
    }

    /** `_read_int32`. */
    method ReadUInt32() returns (r: Result<u32, DecodeError>)
      modifies this
      ensures Outcome(r, offset) == ReadUInt32At(data, old(offset))
    {
      Pow256Values();
      var n := ReadFixed(4);
      r := if n.Ok? then Ok(n.value) else Err(n.error);
    }

    /** `_read_int64`. */
    method ReadUInt64() returns (r: Result<u64, DecodeError>)
      modifies this
      ensures Outcome(r, offset) == ReadUInt64At(data, old(offset))
    {
      Pow256Values();
      var n := ReadFixed(8);
      r := if n.Ok? then Ok(n.value) else Err(n.error);
    }

    /** `read_int32`: the number as an Integer of size 32. */
    method ReadInt32() returns (r: Result<Value, DecodeError>)
      modifies this
      ensures Outcome(r, offset) == ParseValue(data, old(offset), TYPE_INT32)
    {
      var n := ReadUInt32();
      r := if n.Ok? then Ok(Integer(32, n.value)) else Err(n.error);
    }

    /** `read_int64`: the number as an Integer of size 64. */
    method ReadInt64() returns (r: Result<Value, DecodeError>)
      modifies this
      ensures Outcome(r, offset) == ParseValue(data, old(offset), TYPE_INT64)
    {
      var n := ReadUInt64();
      r := if n.Ok? then Ok(Integer(64, n.value)) else Err(n.error);
    }

    /** `read_vdf_header`: `<2I`, version then universe. */
    method ReadVdfHeader() returns (r: Result<(u32, u32), DecodeError>)
      modifies this
      ensures Outcome(r, offset) == ReadVdfHeaderAt(data, old(offset))
    {
      if offset + 8 <= |data| {
        Pow256Values();
        var version := UnpackAt(data, offset, 4);
        var universe := UnpackAt(data, offset + 4, 4);
        r := Ok((version, universe));
        offset := offset + 8;
      } else {
        r := Err(Truncated);
      }
    }

    /** `read_game_header`: `<3IQ20sI`, the six fields of an application. */
    method ReadGameHeader() returns (r: Result<AppHeader, DecodeError>)
      modifies this
      ensures Outcome(r, offset) == ReadGameHeaderAt(data, old(offset))
    {
      if offset + 44 <= |data| {
        Pow256Values();
        var h := AppHeader(
          UnpackAt(data, offset, 4),
          UnpackAt(data, offset + 4, 4),
          UnpackAt(data, offset + 8, 4),
          UnpackAt(data, offset + 12, 8),
          data[offset + 20..offset + 40],
          UnpackAt(data, offset + 40, 4));
        r := Ok(h);
        offset := offset + 44;
      } else {
        r := Err(Truncated);
      }
    }

    /** `read_string`: a scan for the first NUL from the offset on; the bytes
      before it, and the offset just past it. */
    method ReadString() returns (r: Result<Bytes, DecodeError>)
      modifies this
      ensures Outcome(r, offset) == ReadStringAt(data, old(offset))
    {
      var index := offset;
      while index < |data| && data[index] != 0
        invariant offset <= index
        invariant FindNul(data, index) == FindNul(data, offset)
        decreases |data| - index
      {
        index := index + 1;
      }
      if index < |data| {
        r := Ok(data[offset..index]);
        offset := index + 1;
      } else {
        r := Err(Unterminated);
      }
    }

    /** The `value_parsers` dispatch on a tag, with `_unknown_value_type`
      for any other tag. */
    method ReadValue(tag: byte) returns (r: Result<Value, DecodeError>)
      modifies this
      ensures Outcome(r, offset) == ParseValue(data, old(offset), tag)
      decreases |data| - offset, 1
    {
      if tag == TYPE_SECTION {
        var t := ParseSubsections(false);
        r := if t.Ok? then Ok(Section(t.value)) else Err(t.error);
      } else if tag == TYPE_STRING {
        var s := ReadString();
        r := if s.Ok? then Ok(Str(s.value)) else Err(s.error);
      } else if tag == TYPE_INT32 {
        r := ReadInt32();
      } else if tag == TYPE_INT64 {
        r := ReadInt64();
      } else {
        r := Err(UnknownType(tag));
      }
    }

    /** `parse_subsections`: tag, key and value until the 0x08, each stored
      with `subsection[key] = value`; a root tree skips the next byte. */
    method ParseSubsections(root: bool) returns (r: Result<seq<Entry>, DecodeError>)
      modifies this
      ensures Outcome(r, offset) == Subsections(data, old(offset), root, [])
      decreases |data| - offset, 0
    {
      var subsection: seq<Entry> := [];
      while true
        invariant old(offset) <= offset
        invariant Subsections(data, offset, root, subsection) == Subsections(data, old(offset), root, [])
        decreases |data| - offset
      {
        ghost var start := offset;
        var valueType := ReadByte();
        if valueType.Err? {
          return Err(valueType.error);
        }
        var tag := valueType.value;
        if tag == SECTION_END {
          if root {
            offset := offset + 1;
          }
          return Ok(subsection);
        }
        var key := ReadString();
        if key.Err? {
          return if IsValueType(tag) then Err(key.error) else Err(UnknownType(tag));
        }
        ghost var afterKey := offset;
        var value := ReadValue(tag);
        if value.Err? {
          return Err(value.error);
        }
        ParseEntryStep(data, start + 1, tag, key.value, afterKey, value.value, offset);
        SubsectionsStep(data, start, root, subsection, tag, key.value, value.value, offset,
                        Put(subsection, key.value, value.value));
        subsection := Put(subsection, key.value, value.value);
      }
    }

    /** One turn of the named-sections loop of `decode`: a section id (0
      ends the list), one skipped byte, the name, a root tree stored under
      the name, then the id stored into that tree. `None` is the id 0. */
    method ParseNamedSection(sections: seq<Entry>) returns (r: Result<Option<seq<Entry>>, DecodeError>)
      modifies this
      ensures r.Err? ==> SectionList(data, old(offset), sections) == Err(r.error)
      ensures r == Ok(None) ==> SectionList(data, old(offset), sections) == Ok((sections, offset))
      ensures r.Ok? && r.value.Some? ==>
                old(offset) < |data| && old(offset) < offset &&
                SectionList(data, old(offset), sections) == SectionList(data, offset, r.value.value)
      ensures r.Ok? && r.value.Some? ==>
                ReadStringAt(data, old(offset) + 2).Ok? &&
                var (name, o2) := ReadStringAt(data, old(offset) + 2).value;
                Subsections(data, o2, true, []).Ok? &&
                var (tree, o3) := Subsections(data, o2, true, []).value;
                offset == o3 &&
                r.value.value == Put(sections, name, Section(Put(tree, SECTION_ID_KEY, Int(data[old(offset)]))))
    {
      ghost var start := offset;
      var sectionId := ReadByte();
      if sectionId.Err? {
        return Err(sectionId.error);
      }
      if sectionId.value == 0 {
        return Ok(None);
      }
      offset := offset + 1;
      var sectionName := ReadString();
      if sectionName.Err? {
        return Err(sectionName.error);
      }
      ghost var afterName := offset;
      var tree := ParseSubsections(true);
      if tree.Err? {
        return Err(tree.error);
      }
      var name := sectionName.value;
      SectionStored(data, start, sections, sectionId.value, name, afterName, tree.value, offset);
      StoreThenNest(sections, name, tree.value, SECTION_ID_KEY, Int(sectionId.value));
      var stored := Put(sections, name, Section(tree.value));
      r := Ok(Some(PutNested(stored, name, SECTION_ID_KEY, Int(sectionId.value))));
    }

    /** The named-sections loop of `decode`, until the section id 0. */
    method ParseSectionList() returns (r: Result<seq<Entry>, DecodeError>)
      modifies this
      ensures Outcome(r, offset) == SectionList(data, old(offset), [])
    {
      var sections: seq<Entry> := [];
      while true
        invariant old(offset) <= offset
        invariant SectionList(data, offset, sections) == SectionList(data, old(offset), [])
        decreases |data| - offset
      {
        var turn := ParseNamedSection(sections);
        if turn.Err? {
          return Err(turn.error);
        }
        if turn.value.None? {
          return Ok(sections);
        }
        sections := turn.value.value;
      }
    }

    /** One application record of `decode` after its id: the header, then the
      sections in the dialect `version` selects. */
    method ParseApp(version: u32) returns (r: Result<App, DecodeError>)
      modifies this
      ensures Outcome(r, offset) == AppAt(data, old(offset), version)
    {
      var header := ReadGameHeader();
      if header.Err? {
        return Err(header.error);
      }
      var sections;
      if version == VERSION_SINGLE_TREE {
        sections := ParseSubsections(false);
      } else {
        sections := ParseSectionList();
      }
      if sections.Err? {
        return Err(sections.error);
      }
      r := Ok(App(header.value, sections.value));
    }

    /** `decode`: the header and its checks, then applications until the id
      0, each stored with `parsed[app_id] = app`. */
    method Decode() returns (r: Result<Document, DecodeError>)
      modifies this
      ensures r == DecodeAt(data, old(offset))
      ensures r.Ok? ==> Apps(data, old(offset) + 8, r.value.version, []) == Ok((r.value.apps, offset))
    {
      var header := ReadVdfHeader();
      if header.Err? {
        return Err(header.error);
      }
      var (version, universe) := header.value;
      if version !in VDF_VERSIONS {
        return Err(UnknownVersion(version));
      }
      if universe != VDF_UNIVERSE {
        return Err(UnknownUniverse(universe));
      }
      ghost var appsStart := offset;
      var parsed: seq<(u32, App)> := [];
      while true
        invariant appsStart <= offset
        invariant Apps(data, offset, version, parsed) == Apps(data, appsStart, version, [])
        decreases |data| - offset
      {
        ghost var start := offset;
        var appId := ReadUInt32();
        if appId.Err? {
          return Err(appId.error);
        }
        if appId.value == 0 {
          break;
        }
        var app := ParseApp(version);
        if app.Err? {
          return Err(app.error);
        }
        AppsStep(data, start, version, parsed, appId.value, start + 4, app.value, offset);
        parsed := Put(parsed, appId.value, app.value);
      }
      r := Ok(Document(version, universe, parsed));
    }
  }

  /** One turn of the named-sections loop, with the section stored in the
      two steps `decode` takes: the tree under its name, then the id into
      the stored tree. */
  lemma SectionStored(data: Bytes, off: nat, sections: seq<Entry>, sectionId: byte, name: Bytes, o2: nat,
                      tree: seq<Entry>, o3: nat)
    requires sectionId != 0 && ReadByteAt(data, off) == Ok((sectionId, off + 1))
    requires ReadStringAt(data, off + 1 + 1) == Ok((name, o2))
    requires Subsections(data, o2, true, []) == Ok((tree, o3))
    ensures Lookup(Put(sections, name, Section(tree)), name) == Some(Section(tree))
    ensures SectionList(data, off, sections) ==
              SectionList(data, o3, PutNested(Put(sections, name, Section(tree)), name, SECTION_ID_KEY, Int(sectionId)))
  {
    var stored := Section(Put(tree, SECTION_ID_KEY, Int(sectionId)));
    SectionListStep(data, off, sections, sectionId, off + 1, name, o2, tree, o3, stored);
    StoreThenNest(sections, name, tree, SECTION_ID_KEY, Int(sectionId));
  }

  /** `loads`: a fresh decoder over the data, decoded. */
  method Loads(data: Bytes) returns (r: Result<Document, DecodeError>)
    ensures r == DecodeDocument(data)
  {
    var decoder := new AppinfoDecoder(data);
    r := decoder.Decode();
  }
}
