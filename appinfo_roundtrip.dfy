/** What the decoder and the encoder promise about each other: each cursor
    read takes back what the matching pack wrote, a tree comes back from its
    encoding with the same entries in the same order, and a well-formed
    document comes back from `dumps` through `loads` unchanged. */
module AppinfoRoundTrip {
  import opened ByteStrings
  import opened Results
  import opened AppinfoValues
  import opened AppinfoReading
  import opened AppinfoEncoding

  // ---------------------------------------------------------------------
  // Cursor reads against packs

  /** Two numbers with the same `width`-byte packing are equal. */
  lemma PackInjective(m: nat, n: nat, width: nat)
    requires m < Pow256(width) && n < Pow256(width)
    requires Pack(m, width) == Pack(n, width)
    ensures m == n
  {
    UnpackPack(m, width);
    UnpackPack(n, width);
  }

  /** Equal concatenations with equally long first parts have equal parts. */
  lemma ConcatCancel(x1: Bytes, y1: Bytes, x2: Bytes, y2: Bytes)
    requires |x1| == |x2| && x1 + y1 == x2 + y2
    ensures x1 == x2 && y1 == y2
  {
    assert x1 == (x1 + y1)[..|x1|];
    assert x2 == (x2 + y2)[..|x2|];
    assert y1 == (x1 + y1)[|x1|..];
    assert y2 == (x2 + y2)[|x2|..];
  }

  /** A `<I` read over a packed number gives the number, 4 bytes on. */
  lemma ReadPackedUInt32(data: Bytes, off: nat, n: u32, end: nat)
    requires At(data, off, Pack(n, 4)) && end == off + 4
    ensures ReadUInt32At(data, off) == Ok((n, end))
  {
    Pow256Values();
    ReadUIntPacked(data, off);
    PackInjective(ReadUInt32At(data, off).value.0, n, 4);
  }

  /** A `<Q` read over a packed number gives the number, 8 bytes on. */
  lemma ReadPackedUInt64(data: Bytes, off: nat, n: u64, end: nat)
    requires At(data, off, Pack(n, 8)) && end == off + 8
    ensures ReadUInt64At(data, off) == Ok((n, end))
  {
    Pow256Values();
    ReadUIntPacked(data, off);
    PackInjective(ReadUInt64At(data, off).value.0, n, 8);
  }

  /** The `<2I` read over a packed version and universe gives both back. */
  lemma ReadPackedVdfHeader(data: Bytes, off: nat, version: u32, universe: u32, end: nat)
    requires At(data, off, Pack(version, 4) + Pack(universe, 4)) && end == off + 8
    ensures ReadVdfHeaderAt(data, off) == Ok(((version, universe), end))
  {
    Pow256Values();
    var r := ReadVdfHeaderAt(data, off).value.0;
    ReadVdfHeaderPacked(data, off);
    AtSplit(data, off, Pack(r.0, 4), Pack(r.1, 4));
    AtSplit(data, off, Pack(version, 4), Pack(universe, 4));
    PackInjective(r.0, version, 4);
    PackInjective(r.1, universe, 4);
  }

  /** The `<3IQ20sI` read over a packed header gives the header back. */
  lemma ReadPackedGameHeader(data: Bytes, off: nat, h: AppHeader, end: nat)
    requires |h.checksum| == 20
    requires At(data, off, HeaderLayout(h)) && end == off + 44
    ensures ReadGameHeaderAt(data, off) == Ok((h, end))
  {
    Pow256Values();
    var g := ReadGameHeaderAt(data, off).value.0;
    ReadGameHeaderPacked(data, off);
    assert HeaderLayout(g) == data[off..off + 44] == HeaderLayout(h);
    ConcatCancel(Pack(g.size, 4) + Pack(g.state, 4) + Pack(g.lastUpdate, 4) + Pack(g.accessToken, 8) + g.checksum,
                 Pack(g.changeNumber, 4),
                 Pack(h.size, 4) + Pack(h.state, 4) + Pack(h.lastUpdate, 4) + Pack(h.accessToken, 8) + h.checksum,
                 Pack(h.changeNumber, 4));
    ConcatCancel(Pack(g.size, 4) + Pack(g.state, 4) + Pack(g.lastUpdate, 4) + Pack(g.accessToken, 8), g.checksum,
                 Pack(h.size, 4) + Pack(h.state, 4) + Pack(h.lastUpdate, 4) + Pack(h.accessToken, 8), h.checksum);
    ConcatCancel(Pack(g.size, 4) + Pack(g.state, 4) + Pack(g.lastUpdate, 4), Pack(g.accessToken, 8),
                 Pack(h.size, 4) + Pack(h.state, 4) + Pack(h.lastUpdate, 4), Pack(h.accessToken, 8));
    ConcatCancel(Pack(g.size, 4) + Pack(g.state, 4), Pack(g.lastUpdate, 4),
                 Pack(h.size, 4) + Pack(h.state, 4), Pack(h.lastUpdate, 4));
    ConcatCancel(Pack(g.size, 4), Pack(g.state, 4), Pack(h.size, 4), Pack(h.state, 4));
    PackInjective(g.size, h.size, 4);
    PackInjective(g.state, h.state, 4);
    PackInjective(g.lastUpdate, h.lastUpdate, 4);
    PackInjective(g.accessToken, h.accessToken, 8);
    PackInjective(g.changeNumber, h.changeNumber, 4);
  }

  /** `read_string` over `encode_string(s)` gives `s` back when `s` has no
      NUL, and moves past the NUL. */
  lemma ReadEncodedString(data: Bytes, off: nat, s: Bytes, end: nat)
    requires NulFree(s)
    requires At(data, off, EncodeString(s)) && end == off + |s| + 1
    ensures ReadStringAt(data, off) == Ok((s, end))
  {
    assert data[off + |s|] == EncodeString(s)[|s|] == 0;
    assert forall j :: off <= j < off + |s| ==> data[j] == s[j - off] != 0;
    ReadStringAtSpec(data, off);
    var t := ReadStringAt(data, off).value.0;
    assert |t| == |s|;
    assert t == (t + [0])[..|t|] == data[off..off + |t|];
    assert s == EncodeString(s)[..|s|] == data[off..off + |s|];
  }

  /** `read_string` inverts `encode_string`: decoding a string from its own
      encoding followed by anything gives it back. */
  lemma StringRoundTrip(s: Bytes, rest: Bytes)
    requires NulFree(s)
    ensures ReadStringAt(EncodeString(s) + rest, 0) == Ok((s, |s| + 1))
  {
    AtSplit(EncodeString(s) + rest, 0, EncodeString(s), rest);
    ReadEncodedString(EncodeString(s) + rest, 0, s, |s| + 1);
  }

  // ---------------------------------------------------------------------
  // Trees

  /** The tag byte the encoder writes for a well-formed value. */
  function TagOf(v: Value): byte {
    match v
    case Section(_) => TYPE_SECTION
    case Str(_) => TYPE_STRING
    case Integer(size, _) => if size == 32 then TYPE_INT32 else TYPE_INT64
    case _ => SECTION_END
  }

  /** An encoded entry reads back as its tag, then its key and its value. */
  lemma {:induction false} EntryRoundTrip(data: Bytes, off: nat, key: Bytes, value: Value, head: Bytes, end: nat)
    requires NulFree(key) && WellFormedValue(value)
    requires EncodeEntry(key, value) == Ok(head)
    requires At(data, off, head) && end == off + |head|
    ensures IsValueType(TagOf(value))
    ensures ReadByteAt(data, off) == Ok((TagOf(value), off + 1))
    ensures ParseEntry(data, off + 1, TagOf(value)) == Ok(((key, value), end))
    decreases value, if value.Section? then |value.entries| + 2 else 1
  {
    var tagged := [TagOf(value)] + EncodeString(key);
    var payload := head[|tagged|..];
    assert head == tagged + payload;
    AtSplit(data, off, tagged, payload);
    AtSplit(data, off, [TagOf(value)], EncodeString(key));
    assert data[off] == data[off..off + 1][0] == TagOf(value);
    var o2 := off + |tagged|;
    ReadEncodedString(data, off + 1, key, o2);
    ValueRoundTrip(data, o2, key, value, payload, end);
    ParseEntryStep(data, off + 1, TagOf(value), key, o2, value, end);
  }

  /** The payload the encoder writes after an entry's key reads back, with
      the entry's tag, as the value. */
  lemma {:induction false} ValueRoundTrip(data: Bytes, off: nat, key: Bytes, value: Value, payload: Bytes, end: nat)
    requires WellFormedValue(value)
    requires EncodeEntry(key, value) == Ok([TagOf(value)] + EncodeString(key) + payload)
    requires At(data, off, payload) && end == off + |payload|
    ensures ParseValue(data, off, TagOf(value)) == Ok((value, end))
    decreases value, if value.Section? then |value.entries| + 1 else 0
  {
    var p := ParseValue(data, off, TagOf(value));
    var tagged := [TagOf(value)] + EncodeString(key);
    match value
    case Section(c) =>
      var items := EncodeItems(c, 0).value;
      assert tagged + payload == tagged + (items + [SECTION_END]);
      ConcatCancel(tagged, payload, tagged, items + [SECTION_END]);
      ItemsRoundTrip(data, off, c, 0, false, items, [], end);
      assert p == Ok((value, end));
    case Str(s) =>
      ConcatCancel(tagged, payload, tagged, EncodeString(s));
      ReadEncodedString(data, off, s, end);
      assert p == Ok((value, end));
    case Integer(size, n) =>
      Pow256Values();
      if size == 32 {
        ConcatCancel(tagged, payload, tagged, Pack(n, 4));
        ReadPackedUInt32(data, off, n, end);
      } else {
        ConcatCancel(tagged, payload, tagged, Pack(n, 8));
        ReadPackedUInt64(data, off, n, end);
      }
      assert p == Ok((value, end));
  }

  /** Parsing the encoding of entries `i..` of a well-formed tree, with
      entries `..i` already stored, yields the whole tree in order and stops
      at `end`: after the 0x08, plus one skipped byte for a root tree. */
  lemma {:induction false} ItemsRoundTrip(data: Bytes, off: nat, entries: seq<Entry>, i: nat, root: bool, items: Bytes, acc: seq<Entry>, end: nat)
    requires WellFormedTree(entries) && i <= |entries| && acc == entries[..i]
    requires EncodeItems(entries, i) == Ok(items)
    requires At(data, off, items + [SECTION_END])
    requires end == off + |items| + (if root then 2 else 1)
    ensures Subsections(data, off, root, acc) == Ok((entries, end))
    decreases Section(entries), |entries| - i, 1
  {
    if i == |entries| {
      ItemsEnd(data, off, entries, root, items, acc, end);
    } else {
      var next, tail := ItemsStep(data, off, entries, i, root, items, acc);
      ItemsRoundTrip(data, next, entries, i + 1, root, tail, entries[..i + 1], end);
    }
  }

  /** The end of a tree: once every entry is stored, the 0x08 closes it. */
  lemma ItemsEnd(data: Bytes, off: nat, entries: seq<Entry>, root: bool, items: Bytes, acc: seq<Entry>, end: nat)
    requires acc == entries
    requires EncodeItems(entries, |entries|) == Ok(items)
    requires At(data, off, items + [SECTION_END])
    requires end == off + |items| + (if root then 2 else 1)
    ensures Subsections(data, off, root, acc) == Ok((entries, end))
  {
  }

  /** Entry `i` of a well-formed tree reads back from the encoding of
      entries `i..`, up to `next`, and is stored after `..i`; the encoding of
      entries `i + 1..` follows from `next` on. */
  lemma ItemsStep(data: Bytes, off: nat, entries: seq<Entry>, i: nat, root: bool, items: Bytes, acc: seq<Entry>)
    returns (next: nat, tail: Bytes)
    requires WellFormedTree(entries) && i < |entries| && acc == entries[..i]
    requires EncodeItems(entries, i) == Ok(items)
    requires At(data, off, items + [SECTION_END])
    ensures EncodeItems(entries, i + 1) == Ok(tail)
    ensures next + |tail| == off + |items| && At(data, next, tail + [SECTION_END])
    ensures Subsections(data, off, root, acc) == Subsections(data, next, root, entries[..i + 1])
    decreases Section(entries), |entries| - i, 0
  {
    var (key, value) := entries[i];
    var head := EncodeEntry(key, value).value;
    tail := EncodeItems(entries, i + 1).value;
    next := off + |head|;
    assert At(data, off, head) && At(data, next, tail + [SECTION_END]) by {
      assert items == head + tail;
      assert items + [SECTION_END] == head + (tail + [SECTION_END]);
      AtSplit(data, off, head, tail + [SECTION_END]);
    }
    assert key != SECTION_ID_KEY && NulFree(key) && WellFormedValue(value);
    EntryRoundTrip(data, off, key, value, head, next);
    PutNextEntry(entries, i, acc, key, value);
    SubsectionsStep(data, off, root, acc, TagOf(value), key, value, next, entries[..i + 1]);
  }

  /** Storing the next entry of a dictionary into its prefix extends the
      prefix by that entry. */
  lemma {:induction false} PutNextEntry<K, V>(d: seq<(K, V)>, i: nat, acc: seq<(K, V)>, k: K, v: V)
    requires UniqueKeys(d) && i < |d| && acc == d[..i] && d[i] == (k, v)
    ensures Put(acc, k, v) == d[..i + 1]
  {
    forall j | 0 <= j < i
      ensures Keys(acc)[j] != k
    {
      assert Keys(acc)[j] == d[j].0;
    }
    PutAbsent(acc, k, v);
    assert d[..i] + [d[i]] == d[..i + 1];
  }

  /** Tree round trip: a well-formed tree encodes, and `parse_subsections`
      with the same root flag reads exactly its encoding back to the same
      entries in the same order. */
  lemma {:induction false} TreeRoundTrip(data: Bytes, off: nat, tree: seq<Entry>, root: bool)
    requires WellFormedTree(tree)
    ensures EncodeSection(tree, root).Ok?
    ensures At(data, off, EncodeSection(tree, root).value) ==>
              Subsections(data, off, root, []) == Ok((tree, off + |EncodeSection(tree, root).value|))
  {
    WellFormedIsEncodable(Section(tree));
    EncodeSectionOk(tree, root);
    var enc := EncodeSection(tree, root).value;
    if At(data, off, enc) {
      EncodedTreeReads(data, off, tree, root, enc, off + |enc|);
    }
  }

  /** The reading half of the tree round trip, for a given encoding that
      ends at `end`. */
  lemma {:induction false} EncodedTreeReads(data: Bytes, off: nat, tree: seq<Entry>, root: bool, enc: Bytes, end: nat)
    requires WellFormedTree(tree)
    requires EncodeSection(tree, root) == Ok(enc)
    requires At(data, off, enc) && end == off + |enc|
    ensures Subsections(data, off, root, []) == Ok((tree, end))
  {
    var items := EncodeItems(tree, 0).value;
    var extra: Bytes := if root then [SECTION_END] else [];
    assert enc == items + [SECTION_END] + extra;
    AtSplit(data, off, items + [SECTION_END], extra);
    ItemsRoundTrip(data, off, tree, 0, root, items, [], end);
  }

  /** Every well-formed value is one the encoder accepts. */
  lemma {:induction false} WellFormedIsEncodable(v: Value)
    requires WellFormedValue(v)
    ensures Encodable(v)
  {
    match v
    case Section(c) =>
      forall j | 0 <= j < |c| && c[j].0 != SECTION_ID_KEY
        ensures Encodable(c[j].1)
      {
        WellFormedIsEncodable(c[j].1);
      }
    case _ =>
  }

  // ---------------------------------------------------------------------
  // Named sections

  /** `struct.pack('<H', id)` of an id below 256: the id byte, then 0. */
  lemma PackSectionId(id: nat)
    requires id < 256
    ensures Pow256(2) == 0x1_0000 && Pack(id, 2) == [id, 0]
  {
  }

  /** A named section as the decoder leaves it is one the encoder accepts:
      it is a well-formed tree with its id, a byte other than 0, stored after
      it; the id is the one written, and the tree is written as if the id
      were not there. */
  lemma NamedSectionEncodes(v: Value) returns (id: byte, tree: seq<Entry>)
    requires WellFormedNamedSection(v)
    ensures id != 0 && WellFormedTree(tree) && SECTION_ID_KEY !in Keys(tree)
    ensures v == Section(Put(tree, SECTION_ID_KEY, Int(id)))
    ensures NamedSectionEncodable(v) && SectionIdOf(v) == Ok(id)
    ensures EncodeSection(v.entries, true) == EncodeSection(tree, true)
  {
    var es := v.entries;
    var n := |es|;
    tree := es[..n - 1];
    id := es[n - 1].1.n;
    forall j | 0 <= j < n - 1
      ensures es[j].0 != SECTION_ID_KEY && Keys(tree)[j] != SECTION_ID_KEY
    {
      assert es[j] == tree[j] && Keys(tree)[j] == tree[j].0;
    }
    assert Keys(es)[n - 1] == SECTION_ID_KEY;
    var f := FirstIndex(es, SECTION_ID_KEY);
    assert f == n - 1;
    SectionIdNotEmitted(es, n - 1, true);
    assert es[..n - 1] + es[n..] == tree;
    WellFormedIsEncodable(Section(tree));
    forall j | 0 <= j < n && es[j].0 != SECTION_ID_KEY
      ensures Encodable(es[j].1)
    {
      assert j < n - 1 && es[j] == tree[j];
    }
    PutAbsent(tree, SECTION_ID_KEY, Int(id));
    assert es == tree + [es[n - 1]];
  }

  /** A named section with id `id`, name `name` and tree `tree`, once
      encoded at `off`, reads back: the id byte, the skipped byte, the name,
      then the root tree. */
  lemma NamedSectionReads(data: Bytes, off: nat, id: byte, name: Bytes, tree: seq<Entry>, body: Bytes, o1: nat, o2: nat, end: nat)
    requires NulFree(name) && WellFormedTree(tree)
    requires EncodeSection(tree, true) == Ok(body)
    requires At(data, off, Pack(id, 2) + EncodeString(name) + body)
    requires o1 == off + 1 && o2 == o1 + 1 + |name| + 1 && end == o2 + |body|
    ensures ReadByteAt(data, off) == Ok((id, o1))
    ensures ReadStringAt(data, o1 + 1) == Ok((name, o2))
    ensures Subsections(data, o2, true, []) == Ok((tree, end))
  {
    PackSectionId(id);
    var named := [id, 0] + EncodeString(name);
    AtSplit(data, off, named, body);
    AtSplit(data, off, [id, 0], EncodeString(name));
    assert data[off] == data[off..off + 2][0] == id;
    ReadEncodedString(data, o1 + 1, name, o2);
    EncodedTreeReads(data, o2, tree, true, body, end);
  }

  /** Parsing the encoding of sections `i..` of a well-formed section list,
      with sections `..i` already stored, yields the whole list in order and
      stops after the LAST_SECTION byte. */
  lemma {:induction false} SectionListRoundTrip(data: Bytes, off: nat, sections: seq<Entry>, i: nat, acc: seq<Entry>, enc: Bytes, end: nat)
    requires WellFormedSectionList(sections) && i <= |sections| && acc == sections[..i]
    requires EncodeSectionList(sections, i) == Ok(enc)
    requires At(data, off, enc + LAST_SECTION) && end == off + |enc| + 1
    ensures SectionList(data, off, acc) == Ok((sections, end))
    decreases |sections| - i
  {
    if i == |sections| {
      SectionListEnd(data, off, sections, acc, enc, end);
    } else {
      var next, rest := SectionListTurn(data, off, sections, i, acc, enc);
      SectionListRoundTrip(data, next, sections, i + 1, sections[..i + 1], rest, end);
    }
  }

  /** The end of a section list: once every section is stored, the
      LAST_SECTION byte closes it. */
  lemma SectionListEnd(data: Bytes, off: nat, sections: seq<Entry>, acc: seq<Entry>, enc: Bytes, end: nat)
    requires acc == sections
    requires EncodeSectionList(sections, |sections|) == Ok(enc)
    requires At(data, off, enc + LAST_SECTION) && end == off + |enc| + 1
    ensures SectionList(data, off, acc) == Ok((sections, end))
  {
  }

  /** What the encoder writes for section `i` of a well-formed section list:
      the id as `<H`, the name, then the tree the decoder stored the id into. */
  lemma SectionListLayout(sections: seq<Entry>, i: nat, enc: Bytes)
    returns (id: byte, tree: seq<Entry>, body: Bytes, rest: Bytes)
    requires WellFormedSectionList(sections) && i < |sections|
    requires EncodeSectionList(sections, i) == Ok(enc)
    ensures id != 0 && NulFree(sections[i].0) && WellFormedTree(tree)
    ensures EncodeSection(tree, true) == Ok(body)
    ensures EncodeSectionList(sections, i + 1) == Ok(rest)
    ensures enc == Pack(id, 2) + EncodeString(sections[i].0) + body + rest
    ensures sections[i].1 == Section(Put(tree, SECTION_ID_KEY, Int(id)))
  {
    id, tree := NamedSectionEncodes(sections[i].1);
    WellFormedIsEncodable(Section(tree));
    EncodeSectionOk(tree, true);
    body := EncodeSection(tree, true).value;
    rest := EncodeSectionList(sections, i + 1).value;
  }

  /** Section `i` reads back from the encoding of sections `i..`, up to
      `next`, and is stored after `..i`. */
  lemma SectionListTurn(data: Bytes, off: nat, sections: seq<Entry>, i: nat, acc: seq<Entry>, enc: Bytes)
    returns (next: nat, rest: Bytes)
    requires WellFormedSectionList(sections) && i < |sections| && acc == sections[..i]
    requires EncodeSectionList(sections, i) == Ok(enc)
    requires At(data, off, enc + LAST_SECTION)
    ensures EncodeSectionList(sections, i + 1) == Ok(rest)
    ensures next + |rest| == off + |enc| && At(data, next, rest + LAST_SECTION)
    ensures SectionList(data, off, acc) == SectionList(data, next, sections[..i + 1])
  {
    var (name, v) := sections[i];
    var id, tree, body, r := SectionListLayout(sections, i, enc);
    rest := r;
    var head := Pack(id, 2) + EncodeString(name) + body;
    next := off + |head|;
    assert enc + LAST_SECTION == head + (rest + LAST_SECTION);
    AtParts(data, off, head, rest + LAST_SECTION, next);
    var o1 := off + 1;
    var o2 := o1 + 1 + |name| + 1;
    NamedSectionReads(data, off, id, name, tree, body, o1, o2, next);
    SectionListStep(data, off, acc, id, o1, name, o2, tree, next, v);
    PutNextEntry(sections, i, acc, name, v);
  }

  // ---------------------------------------------------------------------
  // Applications and the document

  /** A well-formed application record is one the encoder accepts. */
  lemma AppEncodes(version: u32, app: App)
    requires WellFormedApp(version, app)
    ensures AppEncodable(version, app)
  {
    if version == VERSION_SINGLE_TREE {
      WellFormedIsEncodable(Section(app.sections));
    } else {
      forall j | 0 <= j < |app.sections|
        ensures NamedSectionEncodable(app.sections[j].1)
      {
        var _, _ := NamedSectionEncodes(app.sections[j].1);
      }
    }
  }

  /** An encoded application reads back: its id, then its record, in the
      dialect `version` selects. */
  lemma AppRoundTrip(data: Bytes, off: nat, version: u32, appId: u32, app: App, enc: Bytes, o1: nat, end: nat)
    requires WellFormedApp(version, app)
    requires EncodeApp(version, appId, app) == Ok(enc)
    requires At(data, off, enc) && o1 == off + 4 && end == off + |enc|
    ensures ReadUInt32At(data, off) == Ok((appId, o1))
    ensures AppAt(data, o1, version) == Ok((app, end))
  {
    Pow256Values();
    var header := EncodeGameHeader(app.header);
    var fixed := Pack(appId, 4) + header;
    var sections := enc[48..];
    assert enc == fixed + sections;
    AtSplit(data, off, fixed, sections);
    AtSplit(data, off, Pack(appId, 4), header);
    ReadPackedUInt32(data, off, appId, o1);
    var o2 := o1 + 44;
    ReadPackedGameHeader(data, o1, app.header, o2);
    var a := AppAt(data, o1, version);
    if version == VERSION_SINGLE_TREE {
      EncodedTreeReads(data, o2, app.sections, false, sections, end);
      assert a == Ok((app, end));
    } else {
      var list := EncodeSectionList(app.sections, 0).value;
      assert sections == list + LAST_SECTION;
      SectionListRoundTrip(data, o2, app.sections, 0, [], list, end);
      assert a == Ok((app, end));
    }
  }

  /** Parsing the encoding of applications `i..`, with `..i` already stored,
      yields every application in order and stops after LAST_APP. */
  lemma {:induction false} AppsRoundTrip(data: Bytes, off: nat, version: u32, apps: seq<(u32, App)>, i: nat, acc: seq<(u32, App)>, enc: Bytes, end: nat)
    requires UniqueKeys(apps) && 0 !in Keys(apps)
    requires forall j :: 0 <= j < |apps| ==> WellFormedApp(version, apps[j].1)
    requires i <= |apps| && acc == apps[..i]
    requires EncodeApps(version, apps, i) == Ok(enc)
    requires At(data, off, enc + LAST_APP) && end == off + |enc| + 4
    ensures Apps(data, off, version, acc) == Ok((apps, end))
    decreases |apps| - i
  {
    if i == |apps| {
      AppsEnd(data, off, version, apps, acc, enc, end);
    } else {
      var next, rest := AppsTurn(data, off, version, apps, i, acc, enc);
      AppsRoundTrip(data, next, version, apps, i + 1, apps[..i + 1], rest, end);
    }
  }

  /** The end of the applications: once every one is stored, LAST_APP
      closes the loop. */
  lemma AppsEnd(data: Bytes, off: nat, version: u32, apps: seq<(u32, App)>, acc: seq<(u32, App)>, enc: Bytes, end: nat)
    requires acc == apps
    requires EncodeApps(version, apps, |apps|) == Ok(enc)
    requires At(data, off, enc + LAST_APP) && end == off + |enc| + 4
    ensures Apps(data, off, version, acc) == Ok((apps, end))
  {
    assert enc == [];
    AppsLastApp(data, off, version, acc);
  }

  /** Application `i` reads back from the encoding of applications `i..`,
      up to `next`, and is stored after `..i`. */
  lemma AppsTurn(data: Bytes, off: nat, version: u32, apps: seq<(u32, App)>, i: nat, acc: seq<(u32, App)>, enc: Bytes)
    returns (next: nat, rest: Bytes)
    requires UniqueKeys(apps) && 0 !in Keys(apps)
    requires forall j :: 0 <= j < |apps| ==> WellFormedApp(version, apps[j].1)
    requires i < |apps| && acc == apps[..i]
    requires EncodeApps(version, apps, i) == Ok(enc)
    requires At(data, off, enc + LAST_APP)
    ensures EncodeApps(version, apps, i + 1) == Ok(rest)
    ensures next + |rest| == off + |enc| && At(data, next, rest + LAST_APP)
    ensures Apps(data, off, version, acc) == Apps(data, next, version, apps[..i + 1])
  {
    var (appId, app) := apps[i];
    var head := EncodeApp(version, appId, app).value;
    rest := EncodeApps(version, apps, i + 1).value;
    next := off + |head|;
    assert enc == head + rest;
    assert enc + LAST_APP == head + (rest + LAST_APP);
    AtParts(data, off, head, rest + LAST_APP, next);
    var o1 := off + 4;
    AppRoundTrip(data, off, version, appId, app, head, o1, next);
    assert appId != 0 by {
      assert Keys(apps)[i] == appId;
    }
    AppsStep(data, off, version, acc, appId, o1, app, next);
    PutNextEntry(apps, i, acc, appId, app);
  }

  /** The header gate of `decode`: with a version and a universe in the
      first eight bytes, an unknown version is refused, then a known version
      with another universe; otherwise the document is the applications read
      from offset 8, under that version and universe. */
  lemma VersionGate(data: Bytes, version: u32, universe: u32)
    requires At(data, 0, Pack(version, 4) + Pack(universe, 4))
    ensures version !in VDF_VERSIONS ==> DecodeDocument(data) == Err(UnknownVersion(version))
    ensures version in VDF_VERSIONS && universe != VDF_UNIVERSE ==>
              DecodeDocument(data) == Err(UnknownUniverse(universe))
    ensures version in VDF_VERSIONS && universe == VDF_UNIVERSE ==>
              (DecodeDocument(data).Ok? <==> Apps(data, 8, version, []).Ok?)
    ensures DecodeDocument(data).Ok? ==>
              DecodeDocument(data).value == Document(version, universe, Apps(data, 8, version, []).value.0)
  {
    ReadPackedVdfHeader(data, 0, version, universe, 8);
    var r := DecodeDocument(data);
  }

  /** The document round trip: a well-formed document is written by `dumps`,
      and `loads` of what it wrote, followed by any bytes at all, gives the
      same document back. */
  lemma DocumentRoundTrip(d: Document, rest: Bytes)
    requires WellFormedDocument(d)
    ensures Dumps(d).Ok?
    ensures DecodeDocument(Dumps(d).value + rest) == Ok(d)
  {
    forall j | 0 <= j < |d.apps|
      ensures AppEncodable(d.version, d.apps[j].1)
    {
      AppEncodes(d.version, d.apps[j].1);
    }
    DumpsOk(d);
    EncodeAppsOk(d.version, d.apps, 0);
    var header := Pack(d.version, 4) + Pack(d.universe, 4);
    var apps := EncodeApps(d.version, d.apps, 0).value;
    var data := Dumps(d).value + rest;
    assert data == header + (apps + LAST_APP) + rest;
    AtSplit(data, 0, header + (apps + LAST_APP), rest);
    AtSplit(data, 0, header, apps + LAST_APP);
    ReadPackedVdfHeader(data, 0, d.version, d.universe, 8);
    AppsRoundTrip(data, 8, d.version, d.apps, 0, [], apps, 8 + |apps| + 4);
    var r := DecodeDocument(data);
    assert r == Ok(d);
  }
}
