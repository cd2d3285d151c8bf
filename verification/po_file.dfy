/** The in-memory catalog document: ordered header fields with a name
    index, and translation entries keyed by their message id (context and
    message joined by the EOT character), kept in insertion order. */
module Po {
  import opened Wrappers

  /** Separator between context and message in a message id. */
  const EOT: char := '\U{0004}'

  datatype Location = Location(file: string, line: int)

  datatype TranslationEntry = TranslationEntry(
    message: string,
    plural: Option<string>,
    context: Option<string>,
    locations: seq<Location>,
    translations: map<nat, string>)

  /** `headerIndex` maps a field name to its position in `headers`. */
  datatype PoFile = PoFile(
    headers: seq<(string, string)>,
    headerIndex: map<string, nat>,
    entries: seq<TranslationEntry>)

  /** A key of the flat catalog: a message id, or a message id with a
      plural index. */
  datatype CatalogKey = Single(msgid: string) | Plural(msgid: string, index: nat)

  type Catalog = map<CatalogKey, string>

  /** Message id of a message in an optional context. */
  function MsgId(message: string, context: Option<string>): (r: string)
    ensures context.None? ==> r == message
    ensures context.Some? ==> |r| == |context.value| + 1 + |message| && r[|context.value|] == EOT
  {
    match context
    case None => message
    case Some(c) => c + [EOT] + message
  }

  /** Without the separator in contexts and messages, the message id tells
      context and message apart. */
  lemma {:induction false} MsgIdInjective(m1: string, c1: Option<string>, m2: string, c2: Option<string>)
    requires EOT !in m1 && EOT !in m2
    requires c1.Some? ==> EOT !in c1.value
    requires c2.Some? ==> EOT !in c2.value
    ensures MsgId(m1, c1) == MsgId(m2, c2) <==> m1 == m2 && c1 == c2
  {
    if MsgId(m1, c1) == MsgId(m2, c2) && c1.Some? && c2.Some? {
      var id, a, b := MsgId(m1, c1), c1.value, c2.value;
      if |a| == |b| {
        assert a == id[..|a|] == b;
        assert m1 == id[|a| + 1..] == m2;
      }
    }
  }

  function EntryId(e: TranslationEntry): string {
    MsgId(e.message, e.context)
  }

  function NewEntry(message: string, plural: Option<string>, context: Option<string>): (e: TranslationEntry)
    ensures EntryId(e) == MsgId(message, context)
    ensures e.locations == [] && e.translations == map[]
  {
    TranslationEntry(message, plural, context, [], map[])
  }

  /** Appends one source location; nothing else about the entry changes. */
  function AddLocation(e: TranslationEntry, file: string, line: int): (r: TranslationEntry)
    ensures |r.locations| == |e.locations| + 1 && r.locations[..|e.locations|] == e.locations
    ensures r.locations[|e.locations|] == Location(file, line)
    ensures r.(locations := e.locations) == e
  {
    e.(locations := e.locations + [Location(file, line)])
  }

  /** Sets the translation of one plural index; others are untouched. */
  function AddPluralTranslation(e: TranslationEntry, index: nat, text: string): (r: TranslationEntry)
    ensures index in r.translations && r.translations[index] == text
    ensures forall i :: i != index ==> (i in r.translations <==> i in e.translations)
    ensures forall i :: i != index && i in e.translations ==> r.translations[i] == e.translations[i]
    ensures r.(translations := e.translations) == e
  {
    e.(translations := e.translations[index := text])
  }

  /** The singular translation is the one at index 0. */
  function AddTranslation(e: TranslationEntry, text: string): (r: TranslationEntry)
    ensures 0 in r.translations && r.translations[0] == text
    ensures r == AddPluralTranslation(e, 0, text)
  {
    AddPluralTranslation(e, 0, text)
  }

  /** The catalog contribution of one entry: every non-empty translation of
      a plural entry under its index, or the non-empty index-0 translation
      of a singular entry. */
  function EntryCatalog(e: TranslationEntry): (r: Catalog)
    ensures forall k :: k in r ==> k.msgid == EntryId(e)
  {
    var id := EntryId(e);
    if e.plural.Some? then
      map k | k in PluralKeys(id, e.translations) :: e.translations[k.index]
    else if 0 in e.translations && e.translations[0] != "" then
      map[Single(id) := e.translations[0]]
    else
      map[]
  }

  function PluralKeys(id: string, translations: map<nat, string>): (r: set<CatalogKey>)
    ensures forall k :: k in r <==> k.Plural? && k.msgid == id && k.index in translations && translations[k.index] != ""
  {
    set i | i in translations && translations[i] != "" :: Plural(id, i)
  }

  /** Membership and value of a key in an entry's contribution. */
  lemma {:induction false} EntryCatalogKeys(e: TranslationEntry, k: CatalogKey)
    ensures k in EntryCatalog(e) <==>
      k.msgid == EntryId(e) &&
      (if e.plural.Some? then k.Plural? && k.index in e.translations && e.translations[k.index] != ""
       else k.Single? && 0 in e.translations && e.translations[0] != "")
    ensures k in EntryCatalog(e) && k.Plural? ==> EntryCatalog(e)[k] == e.translations[k.index]
    ensures k in EntryCatalog(e) && k.Single? ==> EntryCatalog(e)[k] == e.translations[0]
  {
  }

  /** Empty document. */
  function Empty(): (d: PoFile)
    ensures Valid(d)
    ensures d.headers == [] && d.entries == []
  {
    PoFile([], map[], [])
  }

  /** The header index points every indexed name at a field of that name. */
  predicate IndexValid(headers: seq<(string, string)>, index: map<string, nat>) {
    forall f :: f in index ==> index[f] < |headers| && headers[index[f]].0 == f
  }

  /** No two entries share a message id. */
  predicate UniqueIds(entries: seq<TranslationEntry>) {
    forall i, j :: 0 <= i < j < |entries| ==> EntryId(entries[i]) != EntryId(entries[j])
  }

  predicate Valid(d: PoFile) {
    IndexValid(d.headers, d.headerIndex) && UniqueIds(d.entries)
  }

  /** Position of the entry with message id `id`, if any. */
  function FindEntry(entries: seq<TranslationEntry>, id: string): (r: Option<nat>)
    ensures r.None? <==> forall i :: 0 <= i < |entries| ==> EntryId(entries[i]) != id
    ensures r.Some? ==> r.value < |entries| && EntryId(entries[r.value]) == id
    ensures r.Some? && UniqueIds(entries) ==>
      forall i :: 0 <= i < |entries| && EntryId(entries[i]) == id ==> i == r.value
  {
    if entries == [] then None
    else if EntryId(entries[|entries| - 1]) == id then Some(|entries| - 1)
    else FindEntry(entries[..|entries| - 1], id)
  }

  /** Adds the entry for a message, or finds the existing one with the same
      message id and gives it the plural form if it has none yet. Returns
      the document and the position of the entry. */
  function AddEntry(d: PoFile, message: string, plural: Option<string>, context: Option<string>): (r: (PoFile, nat))
    requires Valid(d)
    ensures Valid(r.0)
    ensures r.0.headers == d.headers && r.0.headerIndex == d.headerIndex
    ensures r.1 < |r.0.entries| && EntryId(r.0.entries[r.1]) == MsgId(message, context)
    ensures FindEntry(d.entries, MsgId(message, context)).None? ==>
      r.0.entries == d.entries + [NewEntry(message, plural, context)]
    ensures FindEntry(d.entries, MsgId(message, context)).Some? ==>
      var j := FindEntry(d.entries, MsgId(message, context)).value;
      var e := d.entries[j];
      r.1 == j && r.0.entries == d.entries[j := e.(plural := if e.plural.None? then plural else e.plural)]
  {
    var id := MsgId(message, context);
    match FindEntry(d.entries, id)
    case None =>
      (d.(entries := d.entries + [NewEntry(message, plural, context)]), |d.entries|)
    case Some(j) =>
      var e := d.entries[j];
      var e' := e.(plural := if e.plural.None? then plural else e.plural);
      (d.(entries := d.entries[j := e']), j)
  }

  /** Replaces the entry at `j` by one with the same message id. */
  function SetEntry(d: PoFile, j: nat, e: TranslationEntry): (r: PoFile)
    requires Valid(d) && j < |d.entries| && EntryId(e) == EntryId(d.entries[j])
    ensures Valid(r)
    ensures |r.entries| == |d.entries| && r.entries[j] == e
    ensures forall i :: 0 <= i < |d.entries| && i != j ==> r.entries[i] == d.entries[i]
    ensures r.headers == d.headers && r.headerIndex == d.headerIndex
  {
    d.(entries := d.entries[j := e])
  }

  /** Appending an entry does not move the others. */
  lemma {:induction false} FindEntryAppend(entries: seq<TranslationEntry>, x: TranslationEntry, id: string)
    requires EntryId(x) != id
    ensures FindEntry(entries + [x], id) == FindEntry(entries, id)
  {
    assert (entries + [x])[..|entries|] == entries;
  }

  /** Replacing an entry by one with the same id does not move the
      others. */
  lemma {:induction false} FindEntryReplace(entries: seq<TranslationEntry>, j: nat, x: TranslationEntry, id: string)
    requires UniqueIds(entries) && j < |entries| && EntryId(x) == EntryId(entries[j]) != id
    ensures FindEntry(entries[j := x], id) == FindEntry(entries, id)
  {
    var e := entries[j := x];
    assert forall i :: 0 <= i < |e| ==> EntryId(e[i]) == EntryId(entries[i]);
    assert UniqueIds(e);
    match FindEntry(e, id)
    case None =>
    case Some(k) =>
      assert e[k] == entries[k];
  }

  /** Sets a header field: a field seen before is overwritten in place, a
      new one is appended and indexed. */
  function AddHeaderField(d: PoFile, field: string, value: string): (r: PoFile)
    requires Valid(d)
    ensures Valid(r)
    ensures field in r.headerIndex && r.headers[r.headerIndex[field]] == (field, value)
    ensures field in d.headerIndex ==> |r.headers| == |d.headers| && r.headerIndex == d.headerIndex
    ensures field !in d.headerIndex ==> r.headers == d.headers + [(field, value)]
    ensures forall i :: 0 <= i < |d.headers| && d.headers[i].0 != field ==> r.headers[i] == d.headers[i]
    ensures r.entries == d.entries
  {
    if field in d.headerIndex then
      d.(headers := d.headers[d.headerIndex[field] := (field, value)])
    else
      d.(headers := d.headers + [(field, value)], headerIndex := d.headerIndex[field := |d.headers|])
  }

  /** Why the header setter as written fails on a repeated field: it
      indexes the field list with the index dictionary itself. */
  datatype HeaderFault = ListIndexedByDict

  /** The header setter as written: a repeated field raises instead of
      overwriting. */
  function AddHeaderFieldAsWritten(d: PoFile, field: string, value: string): (r: Result<PoFile, HeaderFault>)
    ensures r.Err? <==> field in d.headerIndex
    ensures r.Ok? ==> r.value.headers == d.headers + [(field, value)] && r.value.entries == d.entries
  {
    if field in d.headerIndex then Err(ListIndexedByDict)
    else Ok(d.(headers := d.headers + [(field, value)], headerIndex := d.headerIndex[field := |d.headers|]))
  }

  /** Setting the same field twice: as written this fails, where the
      evident intent (and the behaviour the unit tests expect) is that the
      second value replaces the first. */
  lemma {:induction false} HeaderOverwrite()
    ensures AddHeaderFieldAsWritten(AddHeaderField(Empty(), "Language", "fr"), "Language", "en").Err?
    ensures AddHeaderField(AddHeaderField(Empty(), "Language", "fr"), "Language", "en").headers == [("Language", "en")]
  {
    var d := AddHeaderField(Empty(), "Language", "fr");
    assert d.headers == [("Language", "fr")];
  }

  /** On a valid document the two setters agree whenever the as-written one
      succeeds. */
  lemma {:induction false} AddHeaderFieldAgrees(d: PoFile, field: string, value: string)
    requires Valid(d)
    ensures AddHeaderFieldAsWritten(d, field, value).Ok? ==>
      AddHeaderFieldAsWritten(d, field, value).value == AddHeaderField(d, field, value)
  {
  }

  /** The copy keeps header fields and entries but not the header index. */
  function Clone(d: PoFile): (r: PoFile)
    requires Valid(d)
    ensures Valid(r)
    ensures r.headers == d.headers && r.entries == d.entries && r.headerIndex == map[]
  {
    PoFile(d.headers, map[], d.entries)
  }

  /** The flat catalog of the document: the union of the entries'
      contributions. */
  function GetCatalog(d: PoFile): Catalog {
    CatalogOf(d.entries)
  }

  function CatalogOf(entries: seq<TranslationEntry>): (r: Catalog)
    ensures forall k :: k in r <==> exists i :: 0 <= i < |entries| && k in EntryCatalog(entries[i])
  {
    if entries == [] then map[]
    else
      var last := entries[|entries| - 1];
      var r := CatalogOf(entries[..|entries| - 1]) + EntryCatalog(last);
      assert forall k :: k in r ==> exists i :: 0 <= i < |entries| && k in EntryCatalog(entries[i]) by {
        forall k | k in r
          ensures exists i :: 0 <= i < |entries| && k in EntryCatalog(entries[i])
        {
          if k !in EntryCatalog(last) {
            var i :| 0 <= i < |entries| - 1 && k in EntryCatalog(entries[..|entries| - 1][i]);
            assert entries[..|entries| - 1][i] == entries[i];
          }
        }
      }
      assert forall i :: 0 <= i < |entries| - 1 ==> entries[..|entries| - 1][i] == entries[i];
      r
  }

  lemma {:induction false} UniqueIdsPrefix(entries: seq<TranslationEntry>, n: nat)
    requires UniqueIds(entries) && n <= |entries|
    ensures UniqueIds(entries[..n])
  {
    assert forall i :: 0 <= i < n ==> entries[..n][i] == entries[i];
  }

  /** With unique message ids, a key of the catalog takes its value from
      the one entry that contributes it. */
  lemma {:induction false} CatalogValue(entries: seq<TranslationEntry>, i: nat, k: CatalogKey)
    requires UniqueIds(entries) && i < |entries| && k in EntryCatalog(entries[i])
    ensures k in CatalogOf(entries) && CatalogOf(entries)[k] == EntryCatalog(entries[i])[k]
  {
    var n := |entries|;
    var init := entries[..n - 1];
    assert CatalogOf(entries) == CatalogOf(init) + EntryCatalog(entries[n - 1]);
    if i < n - 1 {
      assert init[i] == entries[i];
      UniqueIdsPrefix(entries, n - 1);
      CatalogValue(init, i, k);
      assert k.msgid == EntryId(entries[i]);
      assert k !in EntryCatalog(entries[n - 1]);
    }
  }

  /** Two entry lists whose contributions agree pairwise, up to a
      reordering given by `p` that may skip entries contributing nothing,
      have the same catalog. */
  lemma {:induction false} CatalogOfPermutation(a: seq<TranslationEntry>, b: seq<TranslationEntry>, p: seq<nat>)
    requires UniqueIds(a) && UniqueIds(b)
    requires |p| == |b| && (forall j :: 0 <= j < |p| ==> p[j] < |a|)
    requires forall i :: 0 <= i < |a| && EntryCatalog(a[i]) != map[] ==> i in p
    requires forall j :: 0 <= j < |b| ==> EntryCatalog(b[j]) == EntryCatalog(a[p[j]])
    ensures CatalogOf(a) == CatalogOf(b)
  {
    forall k | k in CatalogOf(a)
      ensures k in CatalogOf(b) && CatalogOf(b)[k] == CatalogOf(a)[k]
    {
      var i :| 0 <= i < |a| && k in EntryCatalog(a[i]);
      assert i in p;
      var j :| 0 <= j < |p| && p[j] == i;
      CatalogValue(a, i, k);
      CatalogValue(b, j, k);
    }
    forall k | k in CatalogOf(b)
      ensures k in CatalogOf(a)
    {
      var j :| 0 <= j < |b| && k in EntryCatalog(b[j]);
      assert k in EntryCatalog(a[p[j]]);
    }
  }

  /** Keys of the catalog are exactly the keys of the non-empty
      translations, under the shape (plural or not) of their entry. */
  lemma {:induction false} CatalogKeys(d: PoFile, k: CatalogKey)
    requires Valid(d)
    ensures k in GetCatalog(d) <==> exists i :: 0 <= i < |d.entries| && k in EntryCatalog(d.entries[i])
    ensures k in GetCatalog(d) ==> GetCatalog(d)[k] != ""
  {
    if k in GetCatalog(d) {
      var i :| 0 <= i < |d.entries| && k in EntryCatalog(d.entries[i]);
      CatalogValue(d.entries, i, k);
      EntryCatalogKeys(d.entries[i], k);
    }
  }
}
