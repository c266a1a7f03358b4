/** The Appinfo encoder: functions from a document to the bytes that the
    source's generators yield and `b''.join` concatenates, or to the exception
    that stops them. */
module AppinfoEncoding {
  import opened ByteStrings
  import opened Results
  import opened AppinfoValues

  /** Why encoding stops: the TypeError for a value that is not a dictionary,
      byte string or Integer; the TypeError for an Integer of another size;
      the TypeError of indexing a named section that is not a dictionary; the
      KeyError of a named section without its id; and struct.error for a
      number struct.pack cannot fit into its format. */
  datatype EncodeError =
    | UnknownValueType
    | UnknownIntegerSize
    | NotSubscriptable
    | MissingSectionId
    | PackError

  type Encoding = Result<Bytes, EncodeError>

  /** `encode_string`: the bytes followed by one NUL (a `<n+1>s` pack). */
  function EncodeString(s: Bytes): (r: Bytes)
    ensures |r| == |s| + 1 && r[|s|] == 0
  {
    s + [0]
  }

  /** A value the encoder writes without raising: dictionaries whose entries
      other than SECTION_ID_KEY are encodable, any byte string, and Integers
      of size 32 or 64 whose data fits. */
  predicate Encodable(v: Value) {
    match v
    case Section(c) => forall j :: 0 <= j < |c| && c[j].0 != SECTION_ID_KEY ==> Encodable(c[j].1)
    case Str(_) => true
    case Integer(size, data) => IntegerFits(size, data)
    case Int(_) => false
    case Other => false
  }

  /** `encode_integer`: tag, key and a `<I` or `<Q` pack by the Integer's size. */
  function EncodeInteger(key: Bytes, size: int, data: int): (r: Encoding)
    ensures r.Ok? <==> IntegerFits(size, data)
    ensures size != 32 && size != 64 ==> r == Err(UnknownIntegerSize)
  {
    Pow256Values();
    if size == 32 then
      if 0 <= data < 0x1_0000_0000 then Ok([TYPE_INT32] + EncodeString(key) + Pack(data, 4))
      else Err(PackError)
    else if size == 64 then
      if 0 <= data < 0x1_0000_0000_0000_0000 then Ok([TYPE_INT64] + EncodeString(key) + Pack(data, 8))
      else Err(PackError)
    else Err(UnknownIntegerSize)
  }

  /** One entry of `iter_encode_section` by the type of its value: a nested
      dictionary, a byte string or an Integer; any other value fails. */
  function EncodeEntry(key: Bytes, value: Value): (r: Encoding)
    ensures value.Int? || value.Other? ==> r == Err(UnknownValueType)
    decreases value, if value.Section? then |value.entries| + 2 else 0
  {
    match value
    case Section(c) =>
      var body :- EncodeSection(c, false);
      Ok([TYPE_SECTION] + EncodeString(key) + body)
    case Str(s) => Ok([TYPE_STRING] + EncodeString(key) + EncodeString(s))
    case Integer(size, data) => EncodeInteger(key, size, data)
    case Int(_) => Err(UnknownValueType)
    case Other => Err(UnknownValueType)
  }

  /** The loop of `iter_encode_section` from entry `i` on: the entries in
      dictionary order; SECTION_ID_KEY entries are not written. */
  function EncodeItems(entries: seq<Entry>, i: nat): (r: Encoding)
    requires i <= |entries|
    decreases Section(entries), |entries| - i
  {
    if i == |entries| then Ok([])
    else if entries[i].0 == SECTION_ID_KEY then EncodeItems(entries, i + 1)
    else
      var head :- EncodeEntry(entries[i].0, entries[i].1);
      var tail :- EncodeItems(entries, i + 1);
      Ok(head + tail)
  }

  /** `iter_encode_section`: the entries, one 0x08, and for a root tree a
      second 0x08. */
  function EncodeSection(entries: seq<Entry>, root: bool): (r: Encoding)
    decreases Section(entries), |entries| + 1
  {
    var items :- EncodeItems(entries, 0);
    Ok(items + [SECTION_END] + (if root then [SECTION_END] else []))
  }

  /** `section_data[b'__steamfiles_section_id']`, checked as `struct.pack('<H')`
      checks it. */
  function SectionIdOf(v: Value): (r: Result<u16, EncodeError>)
    ensures r.Ok? ==> v.Section? && Lookup(v.entries, SECTION_ID_KEY) == Some(Int(r.value))
    ensures !v.Section? ==> r == Err(NotSubscriptable)
    ensures v.Section? && SECTION_ID_KEY !in Keys(v.entries) ==> r == Err(MissingSectionId)
  {
    match v
    case Section(t) =>
      (match Lookup(t, SECTION_ID_KEY)
       case None => Err(MissingSectionId)
       case Some(id) => if id.Int? && 0 <= id.n < 0x1_0000 then Ok(id.n) else Err(PackError))
    case _ => Err(NotSubscriptable)
  }

  /** A named section the encoder writes without raising. */
  predicate NamedSectionEncodable(v: Value) {
    SectionIdOf(v).Ok? && Encodable(v)
  }

  /** The named-sections loop of `iter_encode` from section `i` on: the id as
      `<H` (the id byte, then its high byte), the name, and the tree as a
      root tree. */
  function EncodeSectionList(sections: seq<Entry>, i: nat): (r: Encoding)
    requires i <= |sections|
    decreases |sections| - i
  {
    Pow256Values();
    if i == |sections| then Ok([])
    else
      var (name, v) := sections[i];
      var sectionId :- SectionIdOf(v);
      var body :- EncodeSection(v.entries, true);
      var rest :- EncodeSectionList(sections, i + 1);
      Ok(Pack(sectionId, 2) + EncodeString(name) + body + rest)
  }

  /** A `20s` pack: the checksum cut or NUL-padded to 20 bytes. */
  function Fit20(c: Bytes): (r: Bytes)
    ensures |r| == 20
    ensures |c| >= 20 ==> r == c[..20]
    ensures |c| < 20 ==> r[..|c|] == c && forall j :: |c| <= j < 20 ==> r[j] == 0
  {
    if |c| >= 20 then c[..20] else c + seq(20 - |c|, _ => 0)
  }

  /** The `<3IQ20sI` pack of an application header. */
  function EncodeGameHeader(h: AppHeader): (r: Bytes)
    ensures |r| == 44
    ensures |h.checksum| == 20 ==> r == HeaderLayout(h)
  {
    HeaderLayout(h.(checksum := Fit20(h.checksum)))
  }

  /** An application record the encoder writes without raising. */
  predicate AppEncodable(version: u32, app: App) {
    if version == VERSION_SINGLE_TREE then Encodable(Section(app.sections))
    else forall j :: 0 <= j < |app.sections| ==> NamedSectionEncodable(app.sections[j].1)
  }

  /** One application of `iter_encode`: id, header, then the sections as
      the version's dialect lays them out. */
  function EncodeApp(version: u32, appId: u32, app: App): (r: Encoding)
    ensures r.Ok? ==> |r.value| > 48
  {
    var sections :- if version == VERSION_SINGLE_TREE then EncodeSection(app.sections, false)
                    else match EncodeSectionList(app.sections, 0)
                         case Err(e) => Err(e)
                         case Ok(list) => Ok(list + LAST_SECTION);
    Ok(Pack(appId, 4) + EncodeGameHeader(app.header) + sections)
  }

  /** The application loop of `iter_encode` from application `i` on. */
  function EncodeApps(version: u32, apps: seq<(u32, App)>, i: nat): (r: Encoding)
    requires i <= |apps|
    decreases |apps| - i
  {
    if i == |apps| then Ok([])
    else
      var head :- EncodeApp(version, apps[i].0, apps[i].1);
      var tail :- EncodeApps(version, apps, i + 1);
      Ok(head + tail)
  }

  /** `dumps`: the `<2I` header, the applications, and the four zero bytes of
      the terminating id. */
  function Dumps(d: Document): (r: Encoding)
    ensures r.Ok? ==> At(r.value, 0, Pack(d.version, 4) + Pack(d.universe, 4))
    ensures r.Ok? ==> |r.value| >= 12 && r.value[|r.value| - 4..] == LAST_APP
  {
    var apps :- EncodeApps(d.version, d.apps, 0);
    var out := Pack(d.version, 4) + Pack(d.universe, 4) + apps + LAST_APP;
    assert out[..8] == Pack(d.version, 4) + Pack(d.universe, 4);
    Ok(out)
  }

  // ---------------------------------------------------------------------
  // What the encoder promises

  /** An entry is written exactly when its value is encodable: the encoder
      raises on a value of another type, or on an Integer it cannot pack,
      at any depth. */
  lemma {:induction false} EncodeEntryOk(key: Bytes, value: Value)
    ensures EncodeEntry(key, value).Ok? <==> Encodable(value)
    decreases value, if value.Section? then |value.entries| + 2 else 0
  {
    match value
    case Section(c) => EncodeSectionOk(c, false);
    case _ =>
  }

  /** A tree is written exactly when it is encodable, with or without the
      root flag. */
  lemma {:induction false} EncodeSectionOk(entries: seq<Entry>, root: bool)
    ensures EncodeSection(entries, root).Ok? <==> Encodable(Section(entries))
    decreases Section(entries), |entries| + 1
  {
    EncodeItemsOk(entries, 0);
  }

  /** Entries `i..` are written exactly when those other than SECTION_ID_KEY
      have encodable values. */
  lemma {:induction false} EncodeItemsOk(entries: seq<Entry>, i: nat)
    requires i <= |entries|
    ensures EncodeItems(entries, i).Ok? <==>
              forall j :: i <= j < |entries| && entries[j].0 != SECTION_ID_KEY ==> Encodable(entries[j].1)
    decreases Section(entries), |entries| - i
  {
    if i < |entries| {
      EncodeItemsOk(entries, i + 1);
      if entries[i].0 != SECTION_ID_KEY {
        EncodeEntryOk(entries[i].0, entries[i].1);
      }
    }
  }

  /** Named sections `i..` are written exactly when each has a packable id
      and an encodable tree. */
  lemma {:induction false} EncodeSectionListOk(sections: seq<Entry>, i: nat)
    requires i <= |sections|
    ensures EncodeSectionList(sections, i).Ok? <==>
              forall j :: i <= j < |sections| ==> NamedSectionEncodable(sections[j].1)
    decreases |sections| - i
  {
    if i < |sections| {
      EncodeSectionListOk(sections, i + 1);
      var v := sections[i].1;
      if v.Section? {
        EncodeSectionOk(v.entries, true);
      }
    }
  }

  /** An application is written exactly when its record is encodable in the
      dialect `version` selects. */
  lemma EncodeAppOk(version: u32, appId: u32, app: App)
    ensures EncodeApp(version, appId, app).Ok? <==> AppEncodable(version, app)
  {
    if version == VERSION_SINGLE_TREE {
      EncodeSectionOk(app.sections, false);
    } else {
      EncodeSectionListOk(app.sections, 0);
    }
  }

  /** Applications `i..` are written exactly when each is encodable. */
  lemma {:induction false} EncodeAppsOk(version: u32, apps: seq<(u32, App)>, i: nat)
    requires i <= |apps|
    ensures EncodeApps(version, apps, i).Ok? <==> forall j :: i <= j < |apps| ==> AppEncodable(version, apps[j].1)
    decreases |apps| - i
  {
    if i < |apps| {
      EncodeAppsOk(version, apps, i + 1);
      EncodeAppOk(version, apps[i].0, apps[i].1);
    }
  }

  /** `dumps` raises exactly when some application cannot be encoded. */
  lemma DumpsOk(d: Document)
    ensures Dumps(d).Ok? <==> forall j :: 0 <= j < |d.apps| ==> AppEncodable(d.version, d.apps[j].1)
  {
    EncodeAppsOk(d.version, d.apps, 0);
  }

  /** The key SECTION_ID_KEY is never written: dropping an entry with that
      key from a tree leaves the tree's encoding unchanged. */
  lemma SectionIdNotEmitted(entries: seq<Entry>, k: nat, root: bool)
    requires k < |entries| && entries[k].0 == SECTION_ID_KEY
    ensures EncodeSection(entries, root) == EncodeSection(entries[..k] + entries[k + 1..], root)
  {
    EncodeItemsDropHidden(entries, k, 0);
  }

  /** `EncodeItems` from `i <= k` on, with and without the hidden entry `k`. */
  lemma {:induction false} EncodeItemsDropHidden(entries: seq<Entry>, k: nat, i: nat)
    requires k < |entries| && entries[k].0 == SECTION_ID_KEY && i <= k
    ensures EncodeItems(entries, i) == EncodeItems(entries[..k] + entries[k + 1..], i)
    decreases k - i
  {
    var rest := entries[..k] + entries[k + 1..];
    if i == k {
      EncodeItemsShift(entries, k, k);
    } else {
      EncodeItemsDropHidden(entries, k, i + 1);
      assert rest[i] == entries[i];
    }
  }

  /** Past the dropped entry `k`, entry `j + 1` of the tree is entry `j` of
      the shortened one. */
  lemma {:induction false} EncodeItemsShift(entries: seq<Entry>, k: nat, j: nat)
    requires k <= j < |entries|
    ensures EncodeItems(entries, j + 1) == EncodeItems(entries[..k] + entries[k + 1..], j)
    decreases |entries| - j
  {
    var rest := entries[..k] + entries[k + 1..];
    if j + 1 < |entries| {
      EncodeItemsShift(entries, k, j + 1);
      assert rest[j] == entries[j + 1];
    }
  }

  /** The root flag changes nothing but one more 0x08 at the end: a root
      tree is written as the same tree with a second SECTION_END, and fails
      with the same error. */
  lemma EncodeRootFlag(entries: seq<Entry>)
    ensures EncodeSection(entries, true) ==
              match EncodeSection(entries, false)
              case Ok(b) => Ok(b + [SECTION_END])
              case Err(e) => Err(e)
  {
    var items := EncodeItems(entries, 0);
    if items.Ok? {
      assert items.value + [SECTION_END] + [] == items.value + [SECTION_END];
    }
  }
}
