/** The data the Appinfo codec works on: its constants, the value tree, the
    application records and the document, the ordered dictionary the decoder
    fills, and what it means for a document to be representable on disk. */
module AppinfoValues {
  import opened ByteStrings
  import opened Results

  /** The bytes of an ASCII string. */
  function Ascii(s: string): Bytes
    requires forall i :: 0 <= i < |s| ==> s[i] as int < 256
  {
    seq(|s|, i requires 0 <= i < |s| => s[i] as int)
  }

  // Header magics. The older one has a list of named sections per
  // application, the newer one a single tree.
  const VERSION_NAMED_SECTIONS: u32 := 0x07564426
  const VERSION_SINGLE_TREE: u32 := 0x07564427
  const VDF_VERSIONS: seq<u32> := [VERSION_NAMED_SECTIONS, VERSION_SINGLE_TREE]
  const VDF_UNIVERSE: u32 := 0x00000001

  const LAST_SECTION: Bytes := [0x00]
  const LAST_APP: Bytes := [0x00, 0x00, 0x00, 0x00]
  const SECTION_END: byte := 0x08

  const TYPE_SECTION: byte := 0x00
  const TYPE_STRING: byte := 0x01
  const TYPE_INT32: byte := 0x02
  const TYPE_INT64: byte := 0x07

  /** The key under which the decoder keeps a named section's id byte. */
  const SECTION_ID_KEY: Bytes := Ascii("__steamfiles_section_id")

  /** A value of a section tree, as the codec sees Python objects:
      a nested dictionary, a byte string, the `Integer(size, data)` named
      tuple, a plain integer (what the decoder stores under SECTION_ID_KEY)
      and, as `Other`, any object the encoder does not recognise. */
  datatype Value =
    | Section(entries: seq<Entry>)
    | Str(bytes: Bytes)
    | Integer(size: int, data: int)
    | Int(n: int)
    | Other

  /** One key/value pair of a dictionary; a dictionary is a sequence of them
      in insertion order. */
  type Entry = (Bytes, Value)

  /** The fixed part of an application record, in on-disk order. */
  datatype AppHeader = AppHeader(
    size: u32,
    state: u32,
    lastUpdate: u32,
    accessToken: u64,
    checksum: Bytes,
    changeNumber: u32)

  /** An application record. In the single-tree dialect `sections` is that
      tree; in the named-sections dialect it maps each section name to a
      `Section` whose tree also holds the section id under SECTION_ID_KEY. */
  datatype App = App(header: AppHeader, sections: seq<Entry>)

  /** A decoded file: the two header fields, kept for re-encoding, and the
      applications by id in file order. */
  datatype Document = Document(version: u32, universe: u32, apps: seq<(u32, App)>)

  /** The on-disk layout of an application header (`<3IQ20sI`) for a
      checksum of exactly 20 bytes. */
  function HeaderLayout(h: AppHeader): (r: Bytes)
    requires |h.checksum| == 20
    ensures |r| == 44
  {
    Pack(h.size, 4) + Pack(h.state, 4) + Pack(h.lastUpdate, 4)
    + Pack(h.accessToken, 8) + h.checksum + Pack(h.changeNumber, 4)
  }

  // ---------------------------------------------------------------------
  // Ordered dictionaries

  function Keys<K, V>(d: seq<(K, V)>): seq<K> {
    seq(|d|, i requires 0 <= i < |d| => d[i].0)
  }

  /** No key occurs twice, as in every Python dictionary. */
  predicate UniqueKeys<K(==), V>(d: seq<(K, V)>) {
    forall i, j :: 0 <= i < j < |d| ==> d[i].0 != d[j].0
  }

  /** The position of the first entry with key `k`. */
  function FirstIndex<K(==), V>(d: seq<(K, V)>, k: K): (r: nat)
    requires k in Keys(d)
    ensures r < |d| && d[r].0 == k
    ensures forall j :: 0 <= j < r ==> d[j].0 != k
  {
    if d[0].0 == k then 0
    else
      assert Keys(d) == [d[0].0] + Keys(d[1..]);
      1 + FirstIndex(d[1..], k)
  }

  /** `d[k] = v` on a Python dictionary: an existing key keeps its position
      and takes the new value; a new key is appended. */
  function Put<K(==), V>(d: seq<(K, V)>, k: K, v: V): seq<(K, V)> {
    if d == [] then [(k, v)]
    else if d[0].0 == k then [(k, v)] + d[1..]
    else [d[0]] + Put(d[1..], k, v)
  }

  /** `Keys` of a non-empty dictionary: its first key, then the rest's. */
  lemma KeysCons<K, V>(d: seq<(K, V)>)
    requires d != []
    ensures Keys(d) == [d[0].0] + Keys(d[1..])
  {
  }

  /** Storing a new key appends it. */
  lemma {:induction false} PutAbsent<K, V>(d: seq<(K, V)>, k: K, v: V)
    requires k !in Keys(d)
    ensures Put(d, k, v) == d + [(k, v)]
  {
    var r := Put(d, k, v);
    if d != [] {
      KeysCons(d);
      PutAbsent(d[1..], k, v);
      assert r == [d[0]] + (d[1..] + [(k, v)]);
      assert d == [d[0]] + d[1..];
    }
  }

  /** Storing an existing key replaces its value where it stands. */
  lemma {:induction false} PutPresent<K, V>(d: seq<(K, V)>, k: K, v: V)
    requires k in Keys(d)
    ensures Put(d, k, v) == d[FirstIndex(d, k) := (k, v)]
  {
    var r := Put(d, k, v);
    KeysCons(d);
    if d[0].0 != k {
      PutPresent(d[1..], k, v);
      assert r == [d[0]] + d[1..][FirstIndex(d[1..], k) := (k, v)];
    }
  }

  /** The keys after a store: the same keys, or one more at the end. */
  lemma PutKeys<K, V>(d: seq<(K, V)>, k: K, v: V)
    ensures Keys(Put(d, k, v)) == if k in Keys(d) then Keys(d) else Keys(d) + [k]
  {
    if k in Keys(d) {
      PutPresent(d, k, v);
    } else {
      PutAbsent(d, k, v);
    }
  }

  /** A store keeps the keys of a dictionary distinct. */
  lemma PutUnique<K, V>(d: seq<(K, V)>, k: K, v: V)
    requires UniqueKeys(d)
    ensures UniqueKeys(Put(d, k, v))
  {
    PutKeys(d, k, v);
    var r := Put(d, k, v);
    forall i, j | 0 <= i < j < |r|
      ensures r[i].0 != r[j].0
    {
      assert r[i].0 == Keys(r)[i] && r[j].0 == Keys(r)[j];
      if j == |d| {
        assert Keys(r)[j] == k;
        assert Keys(d)[i] == Keys(r)[i];
      } else {
        assert Keys(d)[i] == Keys(r)[i] && Keys(d)[j] == Keys(r)[j];
      }
    }
  }

  /** `d.get(k)`: the value of the first entry with key `k`. */
  function Lookup<K(==), V>(d: seq<(K, V)>, k: K): (r: Option<V>)
    ensures r.Some? <==> k in Keys(d)
    ensures r.Some? ==> r.value == d[FirstIndex(d, k)].1
  {
    if d == [] then None
    else
      assert Keys(d) == [d[0].0] + Keys(d[1..]);
      if d[0].0 == k then Some(d[0].1) else Lookup(d[1..], k)
  }

  /** A store under an existing key finds the stored value there. */
  lemma {:induction false} LookupPut<K, V>(d: seq<(K, V)>, k: K, v: V)
    ensures Lookup(Put(d, k, v), k) == Some(v)
  {
    if d != [] && d[0].0 != k {
      LookupPut(d[1..], k, v);
    }
  }

  /** A second store under the same key replaces the first. */
  lemma {:induction false} PutPut<K, V>(d: seq<(K, V)>, k: K, v: V, w: V)
    ensures Put(Put(d, k, v), k, w) == Put(d, k, w)
  {
    if d != [] && d[0].0 != k {
      PutPut(d[1..], k, v, w);
      var r := Put(d, k, v);
      assert r[0] == d[0] && r[1..] == Put(d[1..], k, v);
    }
  }

  /** `d[outer][k] = v` when `d[outer]` is a tree: the tree is changed where
      it stands in `d`, as a nested Python dictionary is. */
  function PutNested(d: seq<Entry>, outer: Bytes, k: Bytes, v: Value): (r: seq<Entry>)
    requires Lookup(d, outer).Some? && Lookup(d, outer).value.Section?
    ensures Keys(r) == Keys(d)
    ensures r == d[FirstIndex(d, outer) := (outer, Section(Put(Lookup(d, outer).value.entries, k, v)))]
  {
    PutKeys(d, outer, Section(Put(Lookup(d, outer).value.entries, k, v)));
    PutPresent(d, outer, Section(Put(Lookup(d, outer).value.entries, k, v)));
    Put(d, outer, Section(Put(Lookup(d, outer).value.entries, k, v)))
  }

  /** Storing a tree under a key and then storing into that tree is one
      store of the changed tree. */
  lemma StoreThenNest(d: seq<Entry>, outer: Bytes, t: seq<Entry>, k: Bytes, v: Value)
    ensures Lookup(Put(d, outer, Section(t)), outer) == Some(Section(t))
    ensures PutNested(Put(d, outer, Section(t)), outer, k, v) == Put(d, outer, Section(Put(t, k, v)))
  {
    LookupPut(d, outer, Section(t));
    PutPut(d, outer, Section(t), Section(Put(t, k, v)));
  }

  // ---------------------------------------------------------------------
  // What the format can represent

  /** An `Integer` that struct.pack can write with its size's format. */
  predicate IntegerFits(size: int, data: int) {
    || (size == 32 && 0 <= data < 0x1_0000_0000)
    || (size == 64 && 0 <= data < 0x1_0000_0000_0000_0000)
  }

  /** A value that survives encoding and decoding unchanged: dictionaries with
      distinct NUL-free keys other than SECTION_ID_KEY, NUL-free byte strings
      and Integers of size 32 or 64 in range, at every depth. */
  predicate WellFormedValue(v: Value) {
    match v
    case Section(c) =>
      && UniqueKeys(c)
      && forall j :: 0 <= j < |c| ==>
           NulFree(c[j].0) && c[j].0 != SECTION_ID_KEY && WellFormedValue(c[j].1)
    case Str(b) => NulFree(b)
    case Integer(size, data) => IntegerFits(size, data)
    case Int(_) => false
    case Other => false
  }

  predicate WellFormedTree(t: seq<Entry>) {
    WellFormedValue(Section(t))
  }

  /** A named section as the decoder leaves it: a well-formed tree followed by
      its id, a byte other than 0, under SECTION_ID_KEY. */
  predicate WellFormedNamedSection(v: Value) {
    && v.Section?
    && |v.entries| > 0
    && var last := v.entries[|v.entries| - 1];
    && last.0 == SECTION_ID_KEY
    && last.1.Int? && 0 < last.1.n < 256
    && WellFormedTree(v.entries[..|v.entries| - 1])
  }

  predicate WellFormedSectionList(s: seq<Entry>) {
    && UniqueKeys(s)
    && forall j :: 0 <= j < |s| ==> NulFree(s[j].0) && WellFormedNamedSection(s[j].1)
  }

  predicate WellFormedApp(version: u32, app: App) {
    && |app.header.checksum| == 20
    && if version == VERSION_SINGLE_TREE then WellFormedTree(app.sections)
       else WellFormedSectionList(app.sections)
  }

  /** A document that the decoder could have produced and that the encoder
      writes back to the same document: a known version and universe, distinct
      application ids other than 0, and well-formed records. */
  predicate WellFormedDocument(d: Document) {
    && d.version in VDF_VERSIONS
    && d.universe == VDF_UNIVERSE
    && UniqueKeys(d.apps)
    && 0 !in Keys(d.apps)
    && forall j :: 0 <= j < |d.apps| ==> WellFormedApp(d.version, d.apps[j].1)
  }
}
