/** Writing a catalog document out as the lines of a PO file: the header
    block, then every entry in ascending order of its location list (ties
    keep insertion order), with one blank line between printed items.
    Translations and header values are printed as they are; contexts,
    messages and plural messages are escaped. */
module PoDump {
  import opened Wrappers
  import opened Text
  import opened Po
  import Strings
  import LineGrammar

  // ---- Python's ordering of location lists ----

  /** Python `<` on strings: the first differing character decides, and a
      proper prefix comes first. */
  predicate StrLess(a: string, b: string)
    decreases |a|
  {
    if a == [] then b != []
    else if b == [] then false
    else if a[0] != b[0] then a[0] < b[0]
    else StrLess(a[1..], b[1..])
  }

  lemma {:induction false} StrLessIrreflexive(a: string)
    ensures !StrLess(a, a)
    decreases |a|
  {
    if a != [] {
      StrLessIrreflexive(a[1..]);
    }
  }

  lemma {:induction false} StrLessTransitive(a: string, b: string, c: string)
    requires StrLess(a, b) && StrLess(b, c)
    ensures StrLess(a, c)
    decreases |a|
  {
    if a != [] && a[0] == b[0] && b[0] == c[0] {
      StrLessTransitive(a[1..], b[1..], c[1..]);
    }
  }

  lemma {:induction false} StrLessTotal(a: string, b: string)
    ensures a == b || StrLess(a, b) || StrLess(b, a)
    decreases |a|
  {
    if a != [] && b != [] && a[0] == b[0] {
      StrLessTotal(a[1..], b[1..]);
      if a[1..] == b[1..] {
        assert a == [a[0]] + a[1..] && b == [b[0]] + b[1..];
      }
    }
  }

  /** Python `<` on `(file, line)` tuples. */
  predicate LocationLess(x: Location, y: Location) {
    StrLess(x.file, y.file) || (x.file == y.file && x.line < y.line)
  }

  lemma {:induction false} LocationLessIrreflexive(x: Location)
    ensures !LocationLess(x, x)
  {
    StrLessIrreflexive(x.file);
  }

  lemma {:induction false} LocationLessTransitive(x: Location, y: Location, z: Location)
    requires LocationLess(x, y) && LocationLess(y, z)
    ensures LocationLess(x, z)
  {
    if StrLess(x.file, y.file) && StrLess(y.file, z.file) {
      StrLessTransitive(x.file, y.file, z.file);
    }
  }

  lemma {:induction false} LocationLessTotal(x: Location, y: Location)
    ensures x == y || LocationLess(x, y) || LocationLess(y, x)
  {
    StrLessTotal(x.file, y.file);
  }

  /** Python `<` on lists of locations: lexicographic, with the empty list
      (an entry found in no source file) before every other. */
  predicate LocationsLess(a: seq<Location>, b: seq<Location>)
    decreases |a|
  {
    if a == [] then b != []
    else if b == [] then false
    else if a[0] != b[0] then LocationLess(a[0], b[0])
    else LocationsLess(a[1..], b[1..])
  }

  lemma {:induction false} LocationsLessIrreflexive(a: seq<Location>)
    ensures !LocationsLess(a, a)
    decreases |a|
  {
    if a != [] {
      LocationsLessIrreflexive(a[1..]);
    }
  }

  lemma {:induction false} LocationsLessTransitive(a: seq<Location>, b: seq<Location>, c: seq<Location>)
    requires LocationsLess(a, b) && LocationsLess(b, c)
    ensures LocationsLess(a, c)
    decreases |a|
  {
    if a != [] {
      if a[0] == b[0] && b[0] == c[0] {
        LocationsLessTransitive(a[1..], b[1..], c[1..]);
      } else if a[0] != b[0] && b[0] != c[0] {
        LocationLessTransitive(a[0], b[0], c[0]);
        LocationLessIrreflexive(a[0]);
      }
    }
  }

  lemma {:induction false} LocationsLessTotal(a: seq<Location>, b: seq<Location>)
    ensures a == b || LocationsLess(a, b) || LocationsLess(b, a)
    decreases |a|
  {
    if a != [] && b != [] {
      if a[0] == b[0] {
        LocationsLessTotal(a[1..], b[1..]);
        if a[1..] == b[1..] {
          assert a == [a[0]] + a[1..] && b == [b[0]] + b[1..];
        }
      } else {
        LocationLessTotal(a[0], b[0]);
      }
    }
  }

  // ---- The stable sort ----

  /** Entry `i` is printed before entry `j`: its location list is smaller,
      or the lists are equal and it was added first. A stable sort by
      location list is exactly a sort by this strict total order. */
  predicate Before(entries: seq<TranslationEntry>, i: nat, j: nat)
    requires i < |entries| && j < |entries|
  {
    LocationsLess(entries[i].locations, entries[j].locations) ||
    (entries[i].locations == entries[j].locations && i < j)
  }

  lemma {:induction false} BeforeIrreflexive(entries: seq<TranslationEntry>, i: nat)
    requires i < |entries|
    ensures !Before(entries, i, i)
  {
    LocationsLessIrreflexive(entries[i].locations);
  }

  lemma {:induction false} BeforeTransitive(entries: seq<TranslationEntry>, i: nat, j: nat, k: nat)
    requires i < |entries| && j < |entries| && k < |entries|
    requires Before(entries, i, j) && Before(entries, j, k)
    ensures Before(entries, i, k)
  {
    var a, b, c := entries[i].locations, entries[j].locations, entries[k].locations;
    if LocationsLess(a, b) && LocationsLess(b, c) {
      LocationsLessTransitive(a, b, c);
    }
  }

  lemma {:induction false} BeforeTotal(entries: seq<TranslationEntry>, i: nat, j: nat)
    requires i < |entries| && j < |entries| && i != j
    ensures Before(entries, i, j) || Before(entries, j, i)
  {
    LocationsLessTotal(entries[i].locations, entries[j].locations);
  }

  predicate InRange(entries: seq<TranslationEntry>, s: seq<nat>) {
    forall k :: 0 <= k < |s| ==> s[k] < |entries|
  }

  /** `s` lists entry positions in strictly ascending printing order. */
  predicate SortedBy(entries: seq<TranslationEntry>, s: seq<nat>) {
    InRange(entries, s) &&
    forall a, b :: 0 <= a < b < |s| ==> Before(entries, s[a], s[b])
  }

  /** Inserts position `x` before the first position it is printed before. */
  function Insert(entries: seq<TranslationEntry>, x: nat, s: seq<nat>): (r: seq<nat>)
    requires x < |entries| && InRange(entries, s)
    ensures |r| == |s| + 1 && InRange(entries, r)
    ensures forall y :: y in r <==> y == x || y in s
  {
    if s == [] then [x]
    else if Before(entries, x, s[0]) then [x] + s
    else [s[0]] + Insert(entries, x, s[1..])
  }

  lemma {:induction false} InsertSorted(entries: seq<TranslationEntry>, x: nat, s: seq<nat>)
    requires x < |entries| && SortedBy(entries, s) && x !in s
    ensures SortedBy(entries, Insert(entries, x, s))
  {
    if s == [] {
    } else if Before(entries, x, s[0]) {
      var r := [x] + s;
      forall a, b | 0 <= a < b < |r|
        ensures Before(entries, r[a], r[b])
      {
        if a == 0 && b > 1 {
          BeforeTransitive(entries, x, s[0], s[b - 1]);
        }
      }
    } else {
      BeforeTotal(entries, x, s[0]);
      var t := s[1..];
      assert SortedBy(entries, t) by {
        forall a, b | 0 <= a < b < |t|
          ensures Before(entries, t[a], t[b])
        {
          assert t[a] == s[a + 1] && t[b] == s[b + 1];
        }
      }
      InsertSorted(entries, x, t);
      var u := Insert(entries, x, t);
      var r := [s[0]] + u;
      forall a, b | 0 <= a < b < |r|
        ensures Before(entries, r[a], r[b])
      {
        if a == 0 {
          assert r[b] in u;
          if r[b] != x {
            var c :| 0 <= c < |t| && t[c] == r[b];
            assert t[c] == s[c + 1];
          }
        } else {
          assert r[a] == u[a - 1] && r[b] == u[b - 1];
        }
      }
    }
  }

  /** Printing order of `entries[..n]`: Python's stable `sorted` by
      location list, built by inserting one position at a time. */
  function Order(entries: seq<TranslationEntry>, n: nat): (r: seq<nat>)
    requires n <= |entries|
    ensures |r| == n && SortedBy(entries, r)
    ensures forall y: nat :: y in r <==> y < n
  {
    if n == 0 then []
    else
      var prev := Order(entries, n - 1);
      InsertSorted(entries, n - 1, prev);
      Insert(entries, n - 1, prev)
  }

  /** A strictly sorted list of positions is determined by its elements:
      the printing order is the only arrangement that is sorted by
      location list and keeps ties in insertion order. */
  lemma {:induction false} SortedUnique(entries: seq<TranslationEntry>, s: seq<nat>, t: seq<nat>)
    requires SortedBy(entries, s) && SortedBy(entries, t)
    requires forall y :: y in s <==> y in t
    ensures s == t
    decreases |s|
  {
    assert s != [] ==> s[0] in s;
    assert t != [] ==> t[0] in t;
    if s != [] && t != [] {
      if s[0] != t[0] {
        assert s[0] in s && t[0] in t;
        var a :| 0 <= a < |t| && t[a] == s[0];
        var b :| 0 <= b < |s| && s[b] == t[0];
        BeforeTransitive(entries, s[0], t[0], s[0]);
        BeforeIrreflexive(entries, s[0]);
      }
      var s', t' := s[1..], t[1..];
      forall y
        ensures y in s' <==> y in t'
      {
        if y in s' {
          var a :| 0 <= a < |s'| && s'[a] == y;
          BeforeIrreflexive(entries, y);
          assert Before(entries, s[0], s[a + 1]);
          assert y in s;
          var c :| 0 <= c < |t| && t[c] == y;
          assert c != 0;
          assert t[c] == t'[c - 1];
        }
        if y in t' {
          var a :| 0 <= a < |t'| && t'[a] == y;
          BeforeIrreflexive(entries, y);
          assert Before(entries, t[0], t[a + 1]);
          assert y in t;
          var c :| 0 <= c < |s| && s[c] == y;
          assert c != 0;
          assert s[c] == s'[c - 1];
        }
      }
      assert SortedBy(entries, s') by {
        forall a, b | 0 <= a < b < |s'|
          ensures Before(entries, s'[a], s'[b])
        {
          assert s'[a] == s[a + 1] && s'[b] == s[b + 1];
        }
      }
      assert SortedBy(entries, t') by {
        forall a, b | 0 <= a < b < |t'|
          ensures Before(entries, t'[a], t'[b])
        {
          assert t'[a] == t[a + 1] && t'[b] == t[b + 1];
        }
      }
      SortedUnique(entries, s', t');
      assert s == [s[0]] + s' && t == [t[0]] + t';
    }
  }

  // ---- The declared plural count ----

  /** `int()` refused the declared plural count. */
  datatype DumpError = BadPluralCount(text: string)

  /** The item's name, the text before its first `=`, is `nplurals` once
      stripped. */
  predicate NamesPluralCount(pair: string) {
    Strip(Partition(pair, '=').0) == "nplurals"
  }

  /** The stripped text after `=` of the first `;`-separated item that
      names the plural count. */
  function NPluralsItem(pairs: seq<string>): (r: Option<string>)
    ensures r.None? <==> forall i :: 0 <= i < |pairs| ==> !NamesPluralCount(pairs[i])
  {
    if pairs == [] then None
    else if NamesPluralCount(pairs[0]) then Some(Strip(Partition(pairs[0], '=').1))
    else
      assert forall i :: 1 <= i < |pairs| ==> pairs[1..][i - 1] == pairs[i];
      NPluralsItem(pairs[1..])
  }

  /** The header field holding the plural formula, by its exact name. */
  predicate IsPluralForms(name: string) {
    name == "Plural-forms"
  }

  /** A `Plural-forms` field with an item naming the plural count. */
  predicate DeclaresCount(field: (string, string)) {
    IsPluralForms(field.0) && NPluralsItem(Split(field.1, ';')).Some?
  }

  /** The plural count the header declares: the `nplurals` item of the
      first field named exactly `Plural-forms` that has one. No such field
      means no declared count; an item `int()` refuses fails the dump. */
  function NPlurals(headers: seq<(string, string)>): (r: Result<Option<int>, DumpError>)
    ensures (forall i :: 0 <= i < |headers| ==> !IsPluralForms(headers[i].0)) ==> r == Ok(None)
    ensures r != Ok(None) ==> exists i :: 0 <= i < |headers| && DeclaresCount(headers[i])
  {
    if headers == [] then Ok(None)
    else if DeclaresCount(headers[0]) then
      var text := NPluralsItem(Split(headers[0].1, ';')).value;
      match ParseInt(text)
      case None => Err(BadPluralCount(text))
      case Some(n) => Ok(Some(n))
    else
      assert forall i :: 1 <= i < |headers| ==> headers[1..][i - 1] == headers[i];
      NPlurals(headers[1..])
  }

  /** A first field of another name does not matter. */
  lemma {:induction false} NPluralsTail(headers: seq<(string, string)>)
    requires headers != [] && !IsPluralForms(headers[0].0)
    ensures NPlurals(headers) == NPlurals(headers[1..])
  {
    assert !DeclaresCount(headers[0]);
  }

  /** Fields before the first `Plural-forms` field do not matter. */
  lemma {:induction false} NPluralsSkips(before: seq<(string, string)>, rest: seq<(string, string)>)
    requires forall i :: 0 <= i < |before| ==> !IsPluralForms(before[i].0)
    ensures NPlurals(before + rest) == NPlurals(rest)
  {
    if before != [] {
      var h := before + rest;
      assert h[0] == before[0];
      NPluralsTail(h);
      assert h[1..] == before[1..] + rest;
      NPluralsSkips(before[1..], rest);
    } else {
      assert before + rest == rest;
    }
  }

  lemma {:induction false} CountItemParts(digits: string)
    ensures Partition("nplurals=" + digits, '=') == ("nplurals", digits)
  {
    assert "nplurals=" + digits == "nplurals" + ['='] + digits;
    PartitionAt("nplurals", digits, '=');
  }

  /** The item `nplurals=N` names the plural count and carries `N`. */
  lemma {:induction false} CountItem(digits: string)
    requires AllDigits(digits)
    ensures NamesPluralCount("nplurals=" + digits)
    ensures Strip(Partition("nplurals=" + digits, '=').1) == digits
  {
    CountItemParts(digits);
    StripUnchanged("nplurals");
    assert IsDigit(digits[0]) && IsDigit(digits[|digits| - 1]);
    StripUnchanged(digits);
  }

  /** The value `nplurals=N;formula` has `N` as its count item. */
  lemma {:induction false} CountValue(digits: string, formula: string)
    requires AllDigits(digits)
    ensures NPluralsItem(Split("nplurals=" + digits + ";" + formula, ';')) == Some(digits)
  {
    var item := "nplurals=" + digits;
    assert "nplurals=" + digits + ";" + formula == item + [';'] + formula;
    assert ';' !in item by {
      assert forall k :: 0 <= k < |digits| ==> IsDigit(digits[k]);
      assert forall k :: 0 <= k < |item| && k >= 9 ==> item[k] == digits[k - 9];
    }
    SplitAt(item, formula, ';');
    CountItem(digits);
  }

  /** A field `Plural-forms: nplurals=N; ...` declares the count N. */
  lemma {:induction false} DeclaredPluralCount(n: nat, formula: string, before: seq<(string, string)>, after: seq<(string, string)>)
    requires forall i :: 0 <= i < |before| ==> !IsPluralForms(before[i].0)
    ensures NPlurals(before + [("Plural-forms", "nplurals=" + NatToString(n) + ";" + formula)] + after) == Ok(Some(n))
  {
    var field := ("Plural-forms", "nplurals=" + NatToString(n) + ";" + formula);
    assert before + [field] + after == before + ([field] + after);
    NPluralsSkips(before, [field] + after);
    CountValue(NatToString(n), formula);
    ParseIntOfNatToString(n);
    assert DeclaresCount(([field] + after)[0]);
  }

  /** The gettext spelling `Plural-Forms` declares nothing: the lookup
      compares names exactly. */
  lemma {:induction false} CapitalisedFieldIgnored(value: string)
    ensures NPlurals([("Plural-Forms", value)]) == Ok(None)
  {
    assert !IsPluralForms("Plural-Forms");
    assert [("Plural-Forms", value)][1..] == [];
  }

  // ---- One entry ----

  const ObsoleteMarker: string := "#. obsolete entry"

  /** `file:line`, as `'{}:{}'.format(*location)` writes it. */
  function LocationText(l: Location): string {
    l.file + ":" + IntToString(l.line)
  }

  /** The `#:` comment listing every location, separated by spaces. */
  function LocationsComment(locations: seq<Location>): string {
    "#: " + Join(seq(|locations|, i requires 0 <= i < |locations| => LocationText(locations[i])), " ")
  }

  /** A printed keyword line: keyword, index, one space, quoted text. */
  function KeywordLine(kw: LineGrammar.Keyword, index: Option<nat>, text: string): string {
    LineGrammar.RenderKeyword("", kw, index, " ", text, "")
  }

  /** `translations.get(i, '')`. */
  function Translation(e: TranslationEntry, i: nat): string {
    if i in e.translations then e.translations[i] else ""
  }

  /** All translations are empty; true when there are none. */
  predicate Untranslated(e: TranslationEntry) {
    forall i :: i in e.translations ==> e.translations[i] == ""
  }

  /** An entry is printed when some source file uses it, or, unless
      obsolete entries are pruned, when it has a non-empty translation. */
  predicate Emits(e: TranslationEntry, prune: bool) {
    e.locations != [] || (!prune && !Untranslated(e))
  }

  lemma {:induction false} MaxExists(s: set<nat>)
    requires s != {}
    ensures exists m :: m in s && forall x :: x in s ==> x <= m
  {
    var x :| x in s;
    if s != {x} {
      MaxExists(s - {x});
      var m :| m in s - {x} && forall y :: y in s - {x} ==> y <= m;
      var top := if x > m then x else m;
      forall y | y in s
        ensures y <= top
      {
        if y != x {
          assert y in s - {x};
        }
      }
    } else {
      assert forall y :: y in s ==> y <= x;
    }
  }

  /** The largest element of a non-empty set of indices. */
  function MaxIndex(s: set<nat>): (m: nat)
    requires s != {}
    ensures m in s && forall x :: x in s ==> x <= m
  {
    MaxExists(s);
    var m :| m in s && forall x :: x in s ==> x <= m;
    m
  }

  /** How many `msgstr[i]` lines a plural entry gets: the declared count
      as it is, or else the least count that is at least two and covers
      every translated index. */
  function PluralCount(e: TranslationEntry, nplurals: Option<int>): (n: int)
    ensures nplurals.Some? ==> n == nplurals.value
    ensures nplurals.None? ==> n >= 2 && forall i :: i in e.translations ==> i < n
    ensures nplurals.None? && n > 2 ==> n - 1 in e.translations
  {
    if nplurals.Some? then nplurals.value
    else if |e.translations| > 0 then
      var top := MaxIndex(e.translations.Keys);
      if top + 1 > 2 then top + 1 else 2
    else 2
  }

  /** The comment lines: the obsolete marker for an entry no source file
      uses, then the location comment if locations are wanted. */
  function CommentLines(e: TranslationEntry, includeLocations: bool): seq<string> {
    (if e.locations == [] then [ObsoleteMarker] else []) +
    (if includeLocations && e.locations != [] then [LocationsComment(e.locations)] else [])
  }

  /** `msgctxt`, `msgid` and `msgid_plural`, each escaped. */
  function IdLines(e: TranslationEntry): seq<string> {
    (if e.context.Some? then [KeywordLine(LineGrammar.MsgCtxt, None, Strings.Escape(e.context.value))] else []) +
    [KeywordLine(LineGrammar.MsgId, None, Strings.Escape(e.message))] +
    (if e.plural.Some? then [KeywordLine(LineGrammar.MsgIdPlural, None, Strings.Escape(e.plural.value))] else [])
  }

  /** The translations, printed without escaping: `msgstr[0]` up to
      `msgstr[n - 1]` for a plural entry, else the single `msgstr`. */
  function TranslationLines(e: TranslationEntry, nplurals: Option<int>): (r: seq<string>)
    ensures e.plural.Some? ==> |r| == if PluralCount(e, nplurals) < 0 then 0 else PluralCount(e, nplurals)
  {
    if e.plural.Some? then
      var n := PluralCount(e, nplurals);
      seq(if n < 0 then 0 else n, i requires 0 <= i => KeywordLine(LineGrammar.MsgStr, Some(i as nat), Translation(e, i)))
    else [KeywordLine(LineGrammar.MsgStr, None, Translation(e, 0))]
  }

  /** The lines of one entry and whether anything was printed. */
  function DumpEntry(e: TranslationEntry, nplurals: Option<int>, includeLocations: bool, prune: bool): (r: (seq<string>, bool))
    ensures r.1 == Emits(e, prune)
    ensures !r.1 ==> r.0 == []
    ensures r.1 ==> |r.0| >= 1
    ensures r.1 && e.locations == [] ==> r.0[0] == ObsoleteMarker
  {
    if !Emits(e, prune) then ([], false)
    else (CommentLines(e, includeLocations) + IdLines(e) + TranslationLines(e, nplurals), true)
  }

  // ---- The document ----

  /** `"field: value\n"`, with a backslash and an `n` before the closing
      quote; neither part is escaped. */
  function HeaderLine(field: (string, string)): string {
    LineGrammar.Quote(field.0 + ": " + field.1 + "\\n")
  }

  /** `msgid ""`, `msgstr ""`, then one line per header field. */
  function HeaderBlock(headers: seq<(string, string)>): seq<string> {
    [KeywordLine(LineGrammar.MsgId, None, ""), KeywordLine(LineGrammar.MsgStr, None, "")] +
    seq(|headers|, i requires 0 <= i < |headers| => HeaderLine(headers[i]))
  }

  /** The entry loop: a blank line before an entry whenever the previous
      item was printed, then the entry's lines. */
  function EntriesText(entries: seq<TranslationEntry>, order: seq<nat>, nplurals: Option<int>,
                       includeLocations: bool, prune: bool, needsBlank: bool): seq<string>
    requires InRange(entries, order)
  {
    if order == [] then []
    else
      var out := DumpEntry(entries[order[0]], nplurals, includeLocations, prune);
      (if needsBlank then [""] else []) + out.0 + EntriesText(entries, order[1..], nplurals, includeLocations, prune, out.1)
  }

  /** The printed lines of the document, or the error of the plural count
      lookup. The header block comes first when there are header fields. */
  function Dump(d: PoFile, includeLocations: bool, prune: bool): (r: Result<seq<string>, DumpError>)
    ensures r.Err? <==> NPlurals(d.headers).Err?
  {
    var nplurals :- NPlurals(d.headers);
    var head := if d.headers == [] then [] else HeaderBlock(d.headers);
    Ok(head + EntriesText(d.entries, Order(d.entries, |d.entries|), nplurals, includeLocations, prune, d.headers != []))
  }

  // ---- Layout ----

  /** The lines of every printed entry, in printing order. */
  function Blocks(entries: seq<TranslationEntry>, order: seq<nat>, nplurals: Option<int>,
                  includeLocations: bool, prune: bool): seq<seq<string>>
    requires InRange(entries, order)
  {
    if order == [] then []
    else
      var out := DumpEntry(entries[order[0]], nplurals, includeLocations, prune);
      (if out.1 then [out.0] else []) + Blocks(entries, order[1..], nplurals, includeLocations, prune)
  }

  /** Blocks one after the other with exactly one blank line between
      neighbours and none before the first. */
  function Separated(blocks: seq<seq<string>>): seq<string> {
    if blocks == [] then []
    else if |blocks| == 1 then blocks[0]
    else blocks[0] + [""] + Separated(blocks[1..])
  }

  /** The last entry in printing order is not printed. */
  predicate LastQuiet(entries: seq<TranslationEntry>, order: seq<nat>, prune: bool)
    requires InRange(entries, order)
  {
    order != [] && !Emits(entries[order[|order| - 1]], prune)
  }

  /** No entry is printed exactly when no block is produced. */
  lemma {:induction false} BlocksEmpty(entries: seq<TranslationEntry>, order: seq<nat>, nplurals: Option<int>,
                                       includeLocations: bool, prune: bool)
    requires InRange(entries, order)
    ensures Blocks(entries, order, nplurals, includeLocations, prune) == [] <==>
      forall k :: 0 <= k < |order| ==> !Emits(entries[order[k]], prune)
  {
    if order != [] {
      BlocksEmpty(entries, order[1..], nplurals, includeLocations, prune);
      assert forall k :: 1 <= k < |order| ==> order[1..][k - 1] == order[k];
    }
  }

  /** With no block, the last entry is quiet. */
  lemma {:induction false} NoBlocksLastQuiet(entries: seq<TranslationEntry>, order: seq<nat>, nplurals: Option<int>,
                                             includeLocations: bool, prune: bool)
    requires InRange(entries, order) && order != []
    requires Blocks(entries, order, nplurals, includeLocations, prune) == []
    ensures LastQuiet(entries, order, prune)
  {
    BlocksEmpty(entries, order, nplurals, includeLocations, prune);
  }

  lemma {:induction false} SeparatedCons(b: seq<string>, bs: seq<seq<string>>)
    requires bs != []
    ensures Separated([b] + bs) == b + [""] + Separated(bs)
  {
    assert ([b] + bs)[1..] == bs;
  }

  /** Blocks separated by blank lines, with an optional blank line before
      them and, when there is a block, an optional one after them. */
  function Framed(lead: bool, bs: seq<seq<string>>, trail: bool): seq<string> {
    (if lead then [""] else []) + Separated(bs) + (if bs != [] && trail then [""] else [])
  }

  lemma {:induction false} FramedPrinted(needsBlank: bool, b: seq<string>, bs: seq<seq<string>>, more: bool, quiet: bool)
    requires bs != [] ==> more
    requires more && bs == [] ==> quiet
    ensures (if needsBlank then [""] else []) + b + Framed(more, bs, quiet) == Framed(needsBlank, [b] + bs, more && quiet)
  {
    var pre: seq<string> := if needsBlank then [""] else [];
    if bs != [] {
      SeparatedCons(b, bs);
      assert pre + b + ([""] + Separated(bs) + (if quiet then [""] else [])) ==
        pre + (b + [""] + Separated(bs)) + (if quiet then [""] else []);
    } else {
      assert Separated([b] + bs) == b;
    }
  }

  lemma {:induction false} FramedQuiet(needsBlank: bool, bs: seq<seq<string>>, more: bool, quiet: bool)
    requires bs != [] ==> more
    ensures (if needsBlank then [""] else []) + [] + Framed(false, bs, quiet) == Framed(needsBlank, bs, if more then quiet else true)
  {
    var pre: seq<string> := if needsBlank then [""] else [];
    assert pre + [] == pre;
    if bs == [] {
      assert Framed(false, bs, quiet) == [];
    }
  }

  /** The entry loop prints the printed entries' blocks separated by one
      blank line, preceded by a blank line if one was pending, and followed
      by one if the last entry was not printed after some block was. */
  lemma {:induction false} EntriesLayout(entries: seq<TranslationEntry>, order: seq<nat>, nplurals: Option<int>,
                                         includeLocations: bool, prune: bool, needsBlank: bool)
    requires InRange(entries, order)
    ensures EntriesText(entries, order, nplurals, includeLocations, prune, needsBlank) ==
      Framed(needsBlank && order != [], Blocks(entries, order, nplurals, includeLocations, prune), LastQuiet(entries, order, prune))
  {
    if order != [] {
      var rest := order[1..];
      var out := DumpEntry(entries[order[0]], nplurals, includeLocations, prune);
      var bs' := Blocks(entries, rest, nplurals, includeLocations, prune);
      var pre: seq<string> := if needsBlank then [""] else [];
      assert EntriesText(entries, order, nplurals, includeLocations, prune, needsBlank) ==
        pre + out.0 + EntriesText(entries, rest, nplurals, includeLocations, prune, out.1);
      assert Blocks(entries, order, nplurals, includeLocations, prune) == (if out.1 then [out.0] else []) + bs';
      EntriesLayout(entries, rest, nplurals, includeLocations, prune, out.1);
      assert rest == [] ==> bs' == [];
      assert LastQuiet(entries, order, prune) == if rest != [] then LastQuiet(entries, rest, prune) else !out.1;
      if rest != [] && bs' == [] {
        NoBlocksLastQuiet(entries, rest, nplurals, includeLocations, prune);
      }
      if out.1 {
        FramedPrinted(needsBlank, out.0, bs', rest != [], LastQuiet(entries, rest, prune));
      } else {
        assert out.0 == [] && [] + bs' == bs';
        FramedQuiet(needsBlank, bs', rest != [], LastQuiet(entries, rest, prune));
      }
    }
  }

  /** The printed document: the header block (when there are header fields)
      and every printed entry, in printing order, with exactly one blank
      line between neighbours and none before the first; one more blank
      line ends the output when the last entry in order is not printed. */
  lemma {:induction false} DumpLayout(d: PoFile, includeLocations: bool, prune: bool)
    requires Dump(d, includeLocations, prune).Ok?
    ensures var order := Order(d.entries, |d.entries|);
      var blocks := (if d.headers == [] then [] else [HeaderBlock(d.headers)]) +
        Blocks(d.entries, order, NPlurals(d.headers).value, includeLocations, prune);
      Dump(d, includeLocations, prune).value == Framed(false, blocks, LastQuiet(d.entries, order, prune))
  {
    var order := Order(d.entries, |d.entries|);
    var nplurals := NPlurals(d.headers).value;
    var bs := Blocks(d.entries, order, nplurals, includeLocations, prune);
    EntriesLayout(d.entries, order, nplurals, includeLocations, prune, d.headers != []);
    if d.headers != [] {
      if order != [] && bs == [] {
        NoBlocksLastQuiet(d.entries, order, nplurals, includeLocations, prune);
      }
      assert bs != [] ==> order != [];
      FramedPrinted(false, HeaderBlock(d.headers), bs, order != [], LastQuiet(d.entries, order, prune));
      assert [] + HeaderBlock(d.headers) == HeaderBlock(d.headers);
    } else {
      assert [] + bs == bs;
    }
  }
}
