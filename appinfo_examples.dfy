/** Small inputs on which the codec's behaviour is worth seeing spelled out:
    the dictionary semantics of repeated keys, the bytes the decoder skips
    without looking at them, and the smallest file. */
module AppinfoExamples {
  import opened ByteStrings
  import opened Results
  import opened AppinfoValues
  import opened AppinfoReading
  import opened AppinfoEncoding
  import opened AppinfoRoundTrip

  /** The bytes of a string entry with a one-byte key and a one-byte value. */
  function StringEntry(k: byte, v: byte): Bytes {
    [TYPE_STRING, k, 0, v, 0]
  }

  /** A string entry with a one-byte key and a one-byte value (tag, key,
      NUL, value, NUL) is read and stored into the tree built so far. */
  lemma OneByteStringEntry(data: Bytes, off: nat, root: bool, acc: seq<Entry>, k: byte, v: byte, next: nat)
    requires k != 0 && v != 0 && next == off + 5 && next <= |data|
    requires data[off..next] == StringEntry(k, v)
    ensures Subsections(data, off, root, acc) == Subsections(data, next, root, Put(acc, [k], Str([v])))
  {
    assert data[off..next] == [TYPE_STRING, k, 0, v, 0];
    assert data[off] == data[off..next][0] && data[off + 1] == data[off..next][1];
    assert data[off + 2] == data[off..next][2] && data[off + 3] == data[off..next][3];
    assert data[off + 4] == data[off..next][4];
    assert FindNul(data, off + 1) == Some(off + 2) && data[off + 1..off + 2] == [k];
    assert FindNul(data, off + 3) == Some(off + 4) && data[off + 3..off + 4] == [v];
    ParseEntryStep(data, off + 1, TYPE_STRING, [k], off + 3, Str([v]), next);
    SubsectionsStep(data, off, root, acc, TYPE_STRING, [k], Str([v]), next, Put(acc, [k], Str([v])));
  }

  /** Storing under `a`, then `c`, then `a` again: the second store under
      `a` replaces the value in the first position. */
  lemma RepeatedKeyPuts(a: Bytes, c: Bytes, b: Value, d: Value, e: Value)
    requires a != c
    ensures Put([], a, b) == [(a, b)]
    ensures Put([(a, b)], c, d) == [(a, b), (c, d)]
    ensures Put([(a, b), (c, d)], a, e) == [(a, e), (c, d)]
  {
  }

  /** A key that occurs twice in a tree keeps its first position and takes
      the later value, as `subsection[key] = value` does: the tree that
      stores `b` under `a`, `d` under `c`, then `e` under `a` again. */
  lemma RepeatedKeyOverwrites(a: byte, b: byte, c: byte, d: byte, e: byte)
    requires a != 0 && b != 0 && c != 0 && d != 0 && e != 0 && a != c
    ensures Subsections(StringEntry(a, b) + StringEntry(c, d) + StringEntry(a, e) + [SECTION_END], 0, false, [])
            == Ok(([([a], Str([e])), ([c], Str([d]))], 16))
  {
    var data := StringEntry(a, b) + StringEntry(c, d) + StringEntry(a, e) + [SECTION_END];
    assert data[0..5] == StringEntry(a, b);
    assert data[5..10] == StringEntry(c, d);
    assert data[10..15] == StringEntry(a, e);
    var t1: seq<Entry> := [([a], Str([b]))];
    var t2: seq<Entry> := [([a], Str([b])), ([c], Str([d]))];
    var t3: seq<Entry> := [([a], Str([e])), ([c], Str([d]))];
    RepeatedKeyPuts([a], [c], Str([b]), Str([d]), Str([e]));
    OneByteStringEntry(data, 0, false, [], a, b, 5);
    OneByteStringEntry(data, 5, false, t1, c, d, 10);
    OneByteStringEntry(data, 10, false, t2, a, e, 15);
    var last := Subsections(data, 15, false, t3);
    assert last == Ok((t3, 16));
  }

  /** The byte after a root tree's 0x08 is skipped whether it is there or
      not: a root tree that is only its 0x08, at the end of the data, ends
      past the end. */
  lemma RootSkipUnchecked()
    ensures Subsections([SECTION_END], 0, true, []) == Ok(([], 2))
  {
  }

  /** The byte between a section id and the section name is skipped
      whatever it holds; the id is stored into the section's tree. */
  lemma SectionIdGapUnchecked(gap: byte)
    ensures SectionList([1, gap, 'a' as byte, 0, SECTION_END, SECTION_END, 0], 0, [])
            == Ok(([(['a' as byte], Section([(SECTION_ID_KEY, Int(1))]))], 7))
  {
    var data: Bytes := [1, gap, 'a' as byte, 0, SECTION_END, SECTION_END, 0];
    var a: Bytes := ['a' as byte];
    assert ReadStringAt(data, 2) == Ok((a, 4)) by {
      assert FindNul(data, 2) == Some(3);
      assert data[2..3] == a;
    }
    var tree := Subsections(data, 4, true, []);
    assert tree == Ok(([], 6));
    var stored := Section(Put([], SECTION_ID_KEY, Int(1)));
    assert stored == Section([(SECTION_ID_KEY, Int(1))]);
    SectionListStep(data, 0, [], 1, 1, a, 4, [], 6, stored);
    var r := SectionList(data, 6, Put([], a, stored));
    assert r == Ok(([(a, stored)], 7));
  }

  /** The smallest file: the single-tree version, the universe and the
      terminating id 0. */
  function EmptyFile(): Bytes {
    [0x27, 0x44, 0x56, 0x07, 1, 0, 0, 0, 0, 0, 0, 0]
  }

  /** An empty document is written as the smallest file. */
  lemma EmptyDocumentEncodes()
    ensures Dumps(Document(VERSION_SINGLE_TREE, VDF_UNIVERSE, [])) == Ok(EmptyFile())
  {
    var d := Document(VERSION_SINGLE_TREE, VDF_UNIVERSE, []);
    assert Pack(VERSION_SINGLE_TREE, 4) == [0x27, 0x44, 0x56, 0x07];
    assert Pack(VDF_UNIVERSE, 4) == [1, 0, 0, 0];
    assert EncodeApps(d.version, d.apps, 0) == Ok([]);
    assert Pack(d.version, 4) + Pack(d.universe, 4) + [] + LAST_APP == EmptyFile();
  }

  /** The smallest file is read as an empty document. */
  lemma EmptyDocumentDecodes()
    ensures DecodeDocument(EmptyFile()) == Ok(Document(VERSION_SINGLE_TREE, VDF_UNIVERSE, []))
  {
  }

  /** The entry that carries a section's id is left out when its tree is
      written, so a tree holding only that entry is written as an empty one. */
  lemma SectionIdEntryNotWritten()
    ensures EncodeSection([(SECTION_ID_KEY, Int(1))], true) == Ok([SECTION_END, SECTION_END])
  {
    var e: seq<Entry> := [(SECTION_ID_KEY, Int(1))];
    assert EncodeItems(e, 0) == EncodeItems(e, 1) == Ok([]);
    assert [] + [SECTION_END] + [SECTION_END] == [SECTION_END, SECTION_END];
  }
}
