/** Writing a document out and reading the lines back. The writer escapes
    contexts and messages but prints translations and header fields as
    they are, while the reader unescapes every string; so the catalog
    survives the round trip when translations and header fields need no
    escaping, no message is empty (an empty message id is read as the
    header) and a declared plural count covers every translated index. */
module RoundTrip {
  import opened Wrappers
  import opened Text
  import Strings
  import opened Po
  import LineGrammar
  import P = Parser
  import D = PoDump

  // ---- Single lines ----

  /** A printed keyword line reads as its keyword, index and string. */
  lemma {:induction false} KeywordLineReads(kw: LineGrammar.Keyword, index: Option<nat>, text: string)
    requires index.Some? ==> kw == LineGrammar.MsgStr
    ensures LineGrammar.Classify(D.KeywordLine(kw, index, text)) == LineGrammar.KeywordLine(kw, index, text)
  {
    assert AllSpace(" ") by { assert " "[0] == ' '; }
    LineGrammar.ClassifyKeyword("", kw, index, " ", text, "");
  }

  /** A printed keyword line takes the reader's keyword step. */
  lemma {:induction false} StepKeywordLine(r: P.Reader, f: Option<string>, n: nat, kw: LineGrammar.Keyword, index: Option<nat>, text: string)
    requires P.Consistent(r) && (index.Some? ==> kw == LineGrammar.MsgStr)
    ensures P.Step(r, f, n, D.KeywordLine(kw, index, text)) == P.StepKeyword(r, f, n, kw, index, text)
  {
    KeywordLineReads(kw, index, text);
  }

  /** A printed comment line is ignored. */
  lemma {:induction false} CommentLineIgnored(line: string)
    requires |line| > 0 && line[0] == '#'
    ensures LineGrammar.Classify(line) == LineGrammar.Ignored
  {
    assert SpaceRun(line, 0) == 0;
  }

  /** A quoted line reads as a continuation of the quoted text. */
  lemma {:induction false} QuotedLineReads(raw: string)
    ensures LineGrammar.Classify(LineGrammar.Quote(raw)) == LineGrammar.Continuation(raw)
  {
    LineGrammar.ClassifyContinuation("", raw, "");
    assert "" + LineGrammar.Quote(raw) + "" == LineGrammar.Quote(raw);
  }

  /** Reading `a + b` when reading `a` stops at `mid` without failure. */
  lemma {:induction false} RunThen(r: P.Reader, f: Option<string>, n: nat, a: seq<string>, b: seq<string>, mid: P.Reader, m: nat)
    requires P.Consistent(r) && P.Run(r, f, n, a) == Ok(mid) && m == n + |a|
    ensures P.Consistent(mid)
    ensures P.Run(r, f, n, a + b) == P.Run(mid, f, m, b)
  {
    P.RunAppend(r, f, n, a, b);
  }

  /** The reader after reading `lines` from `r`, if `r` keeps the
      reader's invariant and reading does not fail. */
  function After(r: P.Reader, f: Option<string>, n: nat, lines: seq<string>): Option<P.Reader> {
    if P.Consistent(r) && P.Run(r, f, n, lines).Ok? then Some(P.Run(r, f, n, lines).value) else None
  }

  /** Reading `a + b` is reading `a`, then `b` from where `a` stopped. */
  lemma {:induction false} AfterThen(r: P.Reader, f: Option<string>, n: nat, a: seq<string>, b: seq<string>, mid: P.Reader, m: nat)
    requires After(r, f, n, a) == Some(mid) && m == n + |a|
    ensures After(r, f, n, a + b) == After(mid, f, m, b)
  {
    RunThen(r, f, n, a, b, mid, m);
  }

  /** Reading a line that steps to `r'`, then the rest. */
  lemma {:induction false} RunCons(r: P.Reader, f: Option<string>, n: nat, line: string, rest: seq<string>)
    requires P.Consistent(r) && P.Step(r, f, n, line).Ok?
    ensures P.Consistent(P.Step(r, f, n, line).value)
    ensures P.Run(r, f, n, [line] + rest) == P.Run(P.Step(r, f, n, line).value, f, n + 1, rest)
  {
    P.StepFollowsTable(r, f, n, line);
    assert ([line] + rest)[0] == line && ([line] + rest)[1..] == rest;
  }

  // ---- Strings the writer leaves alone ----

  /** `s` has none of the characters the encoder rewrites. */
  predicate NeedsNoEscape(s: string) {
    forall c :: c in s ==> !Strings.IsSpecial(c)
  }

  /** A character other than a backslash decodes to itself. */
  lemma {:induction false} UnescapeCons(c: char, t: string)
    requires c != '\\' && Strings.Unescape(t).Ok?
    ensures Strings.Unescape([c] + t) == Ok([c] + Strings.Unescape(t).value)
  {
    var s := [c] + t;
    assert s[0] == c && s[1..] == t;
  }

  lemma {:induction false} HeadTail(a: string, b: string)
    requires a != []
    ensures a + b == [a[0]] + (a[1..] + b)
  {
    assert a == [a[0]] + a[1..];
  }

  /** Text without a backslash decodes to itself in front of whatever
      the rest decodes to. */
  lemma {:induction false} UnescapePlainPrefix(a: string, b: string)
    requires '\\' !in a && Strings.Unescape(b).Ok?
    ensures Strings.Unescape(a + b) == Ok(a + Strings.Unescape(b).value)
    decreases |a|
  {
    if a != [] {
      var v := Strings.Unescape(b).value;
      var t := a[1..] + b;
      assert '\\' !in a[1..] by { assert forall c :: c in a[1..] ==> c in a; }
      UnescapePlainPrefix(a[1..], b);
      assert a[0] in a;
      UnescapeCons(a[0], t);
      HeadTail(a, b);
      HeadTail(a, v);
    } else {
      assert a + b == b;
      assert a + Strings.Unescape(b).value == Strings.Unescape(b).value;
    }
  }

  /** A header line's text decodes without error. */
  lemma {:induction false} HeaderLineDecodes(field: (string, string))
    requires NeedsNoEscape(field.0) && NeedsNoEscape(field.1)
    ensures Strings.Unescape(field.0 + ": " + field.1 + "\\n").Ok?
  {
    var a := field.0 + ": " + field.1;
    assert '\\' !in a by {
      assert forall c :: c in a ==> c in field.0 || c in ": " || c in field.1;
    }
    Strings.UnescapeSpecial('\n');
    assert Strings.EscapeChar('\n') == "\\n";
    UnescapePlainPrefix(a, "\\n");
  }

  // ---- What the reader makes of one entry ----

  /** The indexed translations printed for a plural entry with `n`
      forms: every index below `n`, empty where the entry has none. */
  function PrintedForms(e: TranslationEntry, n: int): (m: map<nat, string>)
    ensures forall i: nat :: i in m <==> i < n
    ensures forall i: nat :: i in m ==> m[i] == D.Translation(e, i)
  {
    map i: nat | i < n :: D.Translation(e, i)
  }

  /** The entry the reader builds from the printed lines of `e`: the same
      message, plural and context, no locations, and the printed
      translations. */
  function ReadBack(e: TranslationEntry, nplurals: Option<int>): (r: TranslationEntry)
    ensures EntryId(r) == EntryId(e)
    ensures r.plural == e.plural && r.locations == []
  {
    TranslationEntry(e.message, e.plural, e.context, [],
      if e.plural.Some? then PrintedForms(e, D.PluralCount(e, nplurals)) else map[0 := D.Translation(e, 0)])
  }

  /** An entry whose printed lines read back into the same catalog
      contribution: a non-empty message, translations that need no
      escaping, and, for a plural entry, at least one printed form and one
      for every non-empty translation. */
  predicate Readable(e: TranslationEntry, nplurals: Option<int>) {
    e.message != [] &&
    (forall i :: i in e.translations ==> NeedsNoEscape(e.translations[i])) &&
    (e.plural.Some? ==>
      D.PluralCount(e, nplurals) >= 1 &&
      forall i :: i in e.translations && e.translations[i] != "" ==> i < D.PluralCount(e, nplurals))
  }

  /** A readable entry contributes to the catalog what its read-back
      contributes. */
  lemma {:induction false} ReadBackCatalog(e: TranslationEntry, nplurals: Option<int>)
    requires Readable(e, nplurals)
    ensures EntryCatalog(ReadBack(e, nplurals)) == EntryCatalog(e)
  {
    var r := ReadBack(e, nplurals);
    forall k
      ensures k in EntryCatalog(r) <==> k in EntryCatalog(e)
      ensures k in EntryCatalog(r) ==> EntryCatalog(r)[k] == EntryCatalog(e)[k]
    {
      EntryCatalogKeys(r, k);
      EntryCatalogKeys(e, k);
    }
  }

  // ---- Reading the lines of one entry ----

  /** The reader between messages: nothing pending but what a flush
      stores, and no header without its translation, so the flush
      succeeds. */
  predicate Between(r: P.Reader) {
    && P.Consistent(r)
    && (r.state == P.Start || r.state == P.AfterMsgStr || r.state == P.AfterMsgStrN)
    && !(r.pending.message == Some([]) && r.pending.translated.None?)
  }

  /** Between messages the flush succeeds and clears what was pending. */
  lemma {:induction false} FlushBetween(r: P.Reader)
    requires Between(r)
    ensures P.Flush(r) == Ok(P.Reader(r.state, P.NoPending, P.Flush(r).value.doc))
  {
  }

  /** An escaped string decodes to the original. */
  lemma {:induction false} DecodeEscaped(s: string, f: Option<string>, n: nat)
    ensures P.Decode(Strings.Escape(s), f, n) == Ok(s)
  {
    Strings.UnescapeEscape(s);
  }

  /** A string that needs no escaping decodes to itself. */
  lemma {:induction false} DecodePlain(s: string, f: Option<string>, n: nat)
    requires NeedsNoEscape(s)
    ensures P.Decode(s, f, n) == Ok(s)
  {
    assert '\\' !in s by { assert Strings.IsSpecial('\\'); }
  }

  /** `msgctxt` between messages flushes and opens a message in that
      context. */
  lemma {:induction false} StepContext(r: P.Reader, f: Option<string>, n: nat, c: string)
    requires Between(r)
    ensures P.Step(r, f, n, D.KeywordLine(LineGrammar.MsgCtxt, None, Strings.Escape(c))) ==
      Ok(P.Reader(P.AfterMsgCtxt, P.NoPending.(context := Some(c)), P.Flush(r).value.doc))
  {
    FlushBetween(r);
    StepKeywordLine(r, f, n, LineGrammar.MsgCtxt, None, Strings.Escape(c));
    DecodeEscaped(c, f, n);
  }

  /** `msgid` after `msgctxt` sets the message. */
  lemma {:induction false} StepMessageInContext(r: P.Reader, f: Option<string>, n: nat, m: string)
    requires P.Consistent(r) && r.state == P.AfterMsgCtxt
    ensures P.Step(r, f, n, D.KeywordLine(LineGrammar.MsgId, None, Strings.Escape(m))) ==
      Ok(P.Reader(P.AfterMsgId, r.pending.(message := Some(m)), r.doc))
  {
    StepKeywordLine(r, f, n, LineGrammar.MsgId, None, Strings.Escape(m));
    DecodeEscaped(m, f, n);
  }

  /** `msgid` between messages flushes and opens a message without
      context. */
  lemma {:induction false} StepMessage(r: P.Reader, f: Option<string>, n: nat, m: string)
    requires Between(r)
    ensures P.Step(r, f, n, D.KeywordLine(LineGrammar.MsgId, None, Strings.Escape(m))) ==
      Ok(P.Reader(P.AfterMsgId, P.NoPending.(message := Some(m)), P.Flush(r).value.doc))
  {
    FlushBetween(r);
    DecodeEscaped(m, f, n);
    assert r.state != P.AfterMsgCtxt;
    StepKeywordLine(r, f, n, LineGrammar.MsgId, None, Strings.Escape(m));
  }

  /** `msgid_plural` after `msgid` sets the plural message. */
  lemma {:induction false} StepPlural(r: P.Reader, f: Option<string>, n: nat, pl: string)
    requires P.Consistent(r) && r.state == P.AfterMsgId
    ensures P.Step(r, f, n, D.KeywordLine(LineGrammar.MsgIdPlural, None, Strings.Escape(pl))) ==
      Ok(P.Reader(P.AfterMsgIdPlural, r.pending.(plural := Some(pl)), r.doc))
  {
    StepKeywordLine(r, f, n, LineGrammar.MsgIdPlural, None, Strings.Escape(pl));
    DecodeEscaped(pl, f, n);
  }

  /** `msgstr` after `msgid` sets the translation. */
  lemma {:induction false} StepSingular(r: P.Reader, f: Option<string>, n: nat, t: string)
    requires P.Consistent(r) && r.state == P.AfterMsgId && NeedsNoEscape(t)
    ensures P.Step(r, f, n, D.KeywordLine(LineGrammar.MsgStr, None, t)) ==
      Ok(P.Reader(P.AfterMsgStr, r.pending.(translated := Some(t)), r.doc))
  {
    StepKeywordLine(r, f, n, LineGrammar.MsgStr, None, t);
    DecodePlain(t, f, n);
  }

  /** `msgstr[i]` with a new index adds that form. */
  lemma {:induction false} StepForm(r: P.Reader, f: Option<string>, n: nat, i: nat, t: string)
    requires P.Consistent(r) && (r.state == P.AfterMsgIdPlural || r.state == P.AfterMsgStrN) && i !in r.pending.plurals
    requires NeedsNoEscape(t)
    ensures P.Step(r, f, n, D.KeywordLine(LineGrammar.MsgStr, Some(i), t)) ==
      Ok(P.Reader(P.AfterMsgStrN, r.pending.(current := i, plurals := r.pending.plurals[i := t]), r.doc))
  {
    StepKeywordLine(r, f, n, LineGrammar.MsgStr, Some(i), t);
    DecodePlain(t, f, n);
  }

  /** The reader after the identifying lines of `e`, waiting for its
      translations. */
  function Opened(e: TranslationEntry, doc: PoFile): P.Reader {
    P.Reader(if e.plural.Some? then P.AfterMsgIdPlural else P.AfterMsgId,
             P.Pending(e.context, Some(e.message), e.plural, None, 0, map[]), doc)
  }

  /** The reader after the translation lines of `e`. */
  function Closed(e: TranslationEntry, nplurals: Option<int>, doc: PoFile): P.Reader
    requires Readable(e, nplurals)
  {
    if e.plural.Some? then
      var n := D.PluralCount(e, nplurals);
      P.Reader(P.AfterMsgStrN, P.Pending(e.context, Some(e.message), e.plural, None, n - 1, PrintedForms(e, n)), doc)
    else
      P.Reader(P.AfterMsgStr, P.Pending(e.context, Some(e.message), None, Some(D.Translation(e, 0)), 0, map[]), doc)
  }

  /** The identifying lines flush whatever was pending and open `e`. */
  lemma {:induction false} ReadIds(r: P.Reader, f: Option<string>, n: nat, e: TranslationEntry)
    requires Between(r)
    ensures P.Run(r, f, n, D.IdLines(e)) == Ok(Opened(e, P.Flush(r).value.doc))
  {
    var doc := P.Flush(r).value.doc;
    var ctx: seq<string> := if e.context.Some? then [D.KeywordLine(LineGrammar.MsgCtxt, None, Strings.Escape(e.context.value))] else [];
    var mid := D.KeywordLine(LineGrammar.MsgId, None, Strings.Escape(e.message));
    var pl: seq<string> := if e.plural.Some? then [D.KeywordLine(LineGrammar.MsgIdPlural, None, Strings.Escape(e.plural.value))] else [];
    assert D.IdLines(e) == ctx + ([mid] + pl);
    var afterId := P.Reader(P.AfterMsgId, P.Pending(e.context, Some(e.message), None, None, 0, map[]), doc);
    if e.context.Some? {
      StepContext(r, f, n, e.context.value);
      var r1 := P.Step(r, f, n, ctx[0]).value;
      RunCons(r, f, n, ctx[0], [mid] + pl);
      StepMessageInContext(r1, f, n + 1, e.message);
      RunCons(r1, f, n + 1, mid, pl);
      assert P.Run(r, f, n, D.IdLines(e)) == P.Run(afterId, f, n + 2, pl);
      ReadPluralLine(afterId, f, n + 2, e);
    } else {
      StepMessage(r, f, n, e.message);
      RunCons(r, f, n, mid, pl);
      assert ctx + ([mid] + pl) == [mid] + pl;
      assert P.Run(r, f, n, D.IdLines(e)) == P.Run(afterId, f, n + 1, pl);
      ReadPluralLine(afterId, f, n + 1, e);
    }
  }

  /** The `msgid_plural` line, if any, completes the opening of `e`. */
  lemma {:induction false} ReadPluralLine(r: P.Reader, f: Option<string>, n: nat, e: TranslationEntry)
    requires r == P.Reader(P.AfterMsgId, P.Pending(e.context, Some(e.message), None, None, 0, map[]), r.doc) && Po.Valid(r.doc)
    ensures P.Run(r, f, n, if e.plural.Some? then [D.KeywordLine(LineGrammar.MsgIdPlural, None, Strings.Escape(e.plural.value))] else []) ==
      Ok(Opened(e, r.doc))
  {
    if e.plural.Some? {
      var line := D.KeywordLine(LineGrammar.MsgIdPlural, None, Strings.Escape(e.plural.value));
      StepPlural(r, f, n, e.plural.value);
      RunCons(r, f, n, line, []);
      assert [line] + [] == [line];
    }
  }

  /** The `msgstr[i]` line of a plural entry. */
  function FormLine(e: TranslationEntry, i: nat): string {
    D.KeywordLine(LineGrammar.MsgStr, Some(i), D.Translation(e, i))
  }

  /** The translation lines of a plural entry are its form lines, one
      per index below the plural count. */
  lemma {:induction false} FormLineAt(e: TranslationEntry, nplurals: Option<int>, i: nat)
    requires e.plural.Some? && i < D.PluralCount(e, nplurals)
    ensures i < |D.TranslationLines(e, nplurals)| && D.TranslationLines(e, nplurals)[i] == FormLine(e, i)
  {
  }

  lemma {:induction false} SliceAll<T>(s: seq<T>)
    ensures s[0..] == s
  {
  }

  lemma {:induction false} SliceCons<T>(s: seq<T>, i: nat)
    requires i < |s|
    ensures s[i..] == [s[i]] + s[i + 1..]
  {
  }

  lemma {:induction false} PrintedFormsNext(e: TranslationEntry, lo: nat)
    ensures PrintedForms(e, lo)[lo := D.Translation(e, lo)] == PrintedForms(e, lo + 1)
  {
    var a := PrintedForms(e, lo)[lo := D.Translation(e, lo)];
    var b := PrintedForms(e, lo + 1);
    assert forall i: nat :: i in a <==> i in b;
    assert a.Keys == b.Keys;
  }

  /** Every printed translation of a readable entry needs no escaping. */
  lemma {:induction false} TranslationPlain(e: TranslationEntry, nplurals: Option<int>, i: nat)
    requires Readable(e, nplurals)
    ensures NeedsNoEscape(D.Translation(e, i))
  {
    if i in e.translations {
      assert NeedsNoEscape(e.translations[i]);
    }
  }

  /** The reader of a plural entry after its first `lo` form lines. */
  function FormsRead(e: TranslationEntry, doc: PoFile, lo: nat): P.Reader {
    if lo == 0 then Opened(e, doc)
    else P.Reader(P.AfterMsgStrN, P.Pending(e.context, Some(e.message), e.plural, None, lo - 1, PrintedForms(e, lo)), doc)
  }

  /** The form line at `lo` adds the form at `lo`. */
  lemma {:induction false} ReadFormLine(doc: PoFile, f: Option<string>, n: nat, e: TranslationEntry, nplurals: Option<int>, lo: nat)
    requires Readable(e, nplurals) && Po.Valid(doc) && e.plural.Some? && lo < D.PluralCount(e, nplurals)
    ensures After(FormsRead(e, doc, lo), f, n, D.TranslationLines(e, nplurals)[lo..]) ==
      After(FormsRead(e, doc, lo + 1), f, n + 1, D.TranslationLines(e, nplurals)[lo + 1..])
  {
    var r := FormsRead(e, doc, lo);
    var lines := D.TranslationLines(e, nplurals);
    var t := D.Translation(e, lo);
    var line := FormLine(e, lo);
    FormLineAt(e, nplurals, lo);
    SliceCons(lines, lo);
    TranslationPlain(e, nplurals, lo);
    if lo == 0 {
      NoFormsPrinted(e);
    }
    StepForm(r, f, n, lo, t);
    PrintedFormsNext(e, lo);
    RunCons(r, f, n, line, lines[lo + 1..]);
  }

  /** Reading the form lines from index `lo` (past the first) on adds the
      printed forms up to the plural count. */
  lemma {:induction false} ReadForms(doc: PoFile, f: Option<string>, n: nat, e: TranslationEntry, nplurals: Option<int>, lo: nat)
    requires Readable(e, nplurals) && Po.Valid(doc) && e.plural.Some? && 1 <= lo <= D.PluralCount(e, nplurals)
    ensures After(FormsRead(e, doc, lo), f, n, D.TranslationLines(e, nplurals)[lo..]) ==
      Some(FormsRead(e, doc, D.PluralCount(e, nplurals)))
    decreases D.PluralCount(e, nplurals) - lo
  {
    if lo < D.PluralCount(e, nplurals) {
      var lines := D.TranslationLines(e, nplurals);
      ReadForms(doc, f, n + 1, e, nplurals, lo + 1);
      ReadFormLine(doc, f, n, e, nplurals, lo);
      SameOutcome(After(FormsRead(e, doc, lo), f, n, lines[lo..]), After(FormsRead(e, doc, lo + 1), f, n + 1, lines[lo + 1..]),
        Some(FormsRead(e, doc, D.PluralCount(e, nplurals))));
    } else {
      FormsAllRead(doc, f, n, e, nplurals, lo);
    }
  }

  lemma {:induction false} SameOutcome(a: Option<P.Reader>, b: Option<P.Reader>, c: Option<P.Reader>)
    requires a == b && b == c
    ensures a == c
  {
  }

  /** With every form line read, nothing is left to read. */
  lemma {:induction false} FormsAllRead(doc: PoFile, f: Option<string>, n: nat, e: TranslationEntry, nplurals: Option<int>, count: nat)
    requires Readable(e, nplurals) && Po.Valid(doc) && e.plural.Some? && count == D.PluralCount(e, nplurals)
    ensures After(FormsRead(e, doc, count), f, n, D.TranslationLines(e, nplurals)[count..]) == Some(FormsRead(e, doc, count))
  {
    var r := FormsRead(e, doc, count);
    NoLinesLeft(D.TranslationLines(e, nplurals), count);
    assert count - 1 in PrintedForms(e, count);
    assert P.Consistent(r);
  }

  lemma {:induction false} NoLinesLeft(lines: seq<string>, k: nat)
    requires k == |lines|
    ensures lines[k..] == []
  {
  }

  /** The translation lines complete the pending message of `e`. */
  lemma {:induction false} ReadTranslations(doc: PoFile, f: Option<string>, n: nat, e: TranslationEntry, nplurals: Option<int>)
    requires Readable(e, nplurals) && Po.Valid(doc)
    ensures After(Opened(e, doc), f, n, D.TranslationLines(e, nplurals)) == Some(Closed(e, nplurals, doc))
  {
    if e.plural.Some? {
      ReadPluralTranslations(doc, f, n, e, nplurals);
    } else {
      ReadSingularTranslation(doc, f, n, e, nplurals);
    }
  }

  lemma {:induction false} NoFormsPrinted(e: TranslationEntry)
    ensures PrintedForms(e, 0) == map[]
  {
    assert PrintedForms(e, 0).Keys == {};
  }

  lemma {:induction false} ReadPluralTranslations(doc: PoFile, f: Option<string>, n: nat, e: TranslationEntry, nplurals: Option<int>)
    requires Readable(e, nplurals) && Po.Valid(doc) && e.plural.Some?
    ensures After(Opened(e, doc), f, n, D.TranslationLines(e, nplurals)) == Some(Closed(e, nplurals, doc))
  {
    var count := D.PluralCount(e, nplurals);
    ReadForms(doc, f, n + 1, e, nplurals, 1);
    ReadFormLine(doc, f, n, e, nplurals, 0);
    SliceAll(D.TranslationLines(e, nplurals));
    assert FormsRead(e, doc, 0) == Opened(e, doc);
    assert FormsRead(e, doc, count) == Closed(e, nplurals, doc);
  }

  lemma {:induction false} ReadSingularTranslation(doc: PoFile, f: Option<string>, n: nat, e: TranslationEntry, nplurals: Option<int>)
    requires Readable(e, nplurals) && Po.Valid(doc) && e.plural.None?
    ensures After(Opened(e, doc), f, n, D.TranslationLines(e, nplurals)) == Some(Closed(e, nplurals, doc))
  {
    var r := Opened(e, doc);
    var line := D.KeywordLine(LineGrammar.MsgStr, None, D.Translation(e, 0));
    TranslationPlain(e, nplurals, 0);
    StepSingular(r, f, n, D.Translation(e, 0));
    RunCons(r, f, n, line, []);
    assert D.TranslationLines(e, nplurals) == [line] + [];
  }

  /** Flushing the completed message of a new entry appends its
      read-back. */
  lemma {:induction false} FlushClosed(doc: PoFile, e: TranslationEntry, nplurals: Option<int>)
    requires Readable(e, nplurals) && Po.Valid(doc)
    requires FindEntry(doc.entries, EntryId(e)).None?
    ensures P.Flush(Closed(e, nplurals, doc)).Ok?
    ensures P.Flush(Closed(e, nplurals, doc)).value.doc.entries == doc.entries + [ReadBack(e, nplurals)]
  {
    var r := Closed(e, nplurals, doc);
    P.StoredNewEntry(doc, r.state, r.pending);
  }

  /** The comment lines of an entry are ignored. */
  lemma {:induction false} CommentLinesIgnored(e: TranslationEntry, includeLocations: bool)
    ensures forall i :: 0 <= i < |D.CommentLines(e, includeLocations)| ==>
      LineGrammar.Classify(D.CommentLines(e, includeLocations)[i]) == LineGrammar.Ignored
  {
    var marker: seq<string> := if e.locations == [] then [D.ObsoleteMarker] else [];
    var locs: seq<string> := if includeLocations && e.locations != [] then [D.LocationsComment(e.locations)] else [];
    assert D.CommentLines(e, includeLocations) == marker + locs;
    CommentLineIgnored(D.ObsoleteMarker);
    CommentLineIgnored(D.LocationsComment(e.locations));
  }

  /** Reading the comment lines of an entry changes nothing. */
  lemma {:induction false} SkipComments(r: P.Reader, f: Option<string>, n: nat, e: TranslationEntry, includeLocations: bool)
    requires P.Consistent(r)
    ensures P.Run(r, f, n, D.CommentLines(e, includeLocations)) == Ok(r)
  {
    CommentLinesIgnored(e, includeLocations);
    P.RunIgnored(r, f, n, D.CommentLines(e, includeLocations));
  }

  // ---- Reading the entries ----

  /** The read-backs of the entries at positions `seen`, in that order. */
  function ReadBackAt(entries: seq<TranslationEntry>, seen: seq<nat>, nplurals: Option<int>): (r: seq<TranslationEntry>)
    requires D.InRange(entries, seen)
    ensures |r| == |seen|
    ensures forall j :: 0 <= j < |seen| ==> r[j] == ReadBack(entries[seen[j]], nplurals)
  {
    seq(|seen|, j requires 0 <= j < |seen| => ReadBack(entries[seen[j]], nplurals))
  }

  /** Reading one more entry appends its read-back. */
  lemma {:induction false} ReadBackAtAppend(entries: seq<TranslationEntry>, seen: seq<nat>, x: nat, nplurals: Option<int>)
    requires D.InRange(entries, seen) && x < |entries|
    ensures D.InRange(entries, seen + [x])
    ensures ReadBackAt(entries, seen + [x], nplurals) == ReadBackAt(entries, seen, nplurals) + [ReadBack(entries[x], nplurals)]
  {
    var a := ReadBackAt(entries, seen + [x], nplurals);
    var b := ReadBackAt(entries, seen, nplurals) + [ReadBack(entries[x], nplurals)];
    assert |a| == |b|;
    forall j | 0 <= j < |a| ensures a[j] == b[j] {
      assert (seen + [x])[j] == if j < |seen| then seen[j] else x;
    }
  }

  /** The reader between messages, having read the entries at positions
      `seen`: its flush yields their read-backs. */
  predicate ReadSoFar(r: P.Reader, entries: seq<TranslationEntry>, seen: seq<nat>, nplurals: Option<int>)
    requires D.InRange(entries, seen)
  {
    Loaded(r) == Some(ReadBackAt(entries, seen, nplurals))
  }

  /** The entries a reader between messages holds once its pending
      message is flushed; nothing for a reader inside a message. */
  function Loaded(r: P.Reader): Option<seq<TranslationEntry>> {
    if Between(r) then Some(P.Flush(r).value.doc.entries) else None
  }

  /** The printed lines of an entry, read between messages, flush what
      was pending and leave the entry's message complete. */
  lemma {:induction false} ReadEntryLines(r: P.Reader, f: Option<string>, n: nat, e: TranslationEntry,
                                          nplurals: Option<int>, includeLocations: bool)
    requires Between(r) && Readable(e, nplurals)
    ensures P.Run(r, f, n, D.CommentLines(e, includeLocations) + D.IdLines(e) + D.TranslationLines(e, nplurals)) ==
      Ok(Closed(e, nplurals, P.Flush(r).value.doc))
  {
    var comments := D.CommentLines(e, includeLocations);
    var ids := D.IdLines(e);
    var doc := P.Flush(r).value.doc;
    SkipComments(r, f, n, e, includeLocations);
    var m1: nat := n + |comments|;
    RunThen(r, f, n, comments, ids, r, m1);
    ReadIds(r, f, m1, e);
    var m2: nat := n + |comments + ids|;
    RunThen(r, f, n, comments + ids, D.TranslationLines(e, nplurals), Opened(e, doc), m2);
    ReadTranslations(doc, f, m2, e, nplurals);
  }

  /** Reading the printed lines of a new entry moves it into the read
      entries. */
  lemma {:induction false} ReadEntry(r: P.Reader, f: Option<string>, n: nat, entries: seq<TranslationEntry>,
                                     seen: seq<nat>, x: nat, nplurals: Option<int>, includeLocations: bool)
    requires D.InRange(entries, seen) && x < |entries| && Readable(entries[x], nplurals)
    requires forall j :: 0 <= j < |seen| ==> EntryId(entries[seen[j]]) != EntryId(entries[x])
    requires ReadSoFar(r, entries, seen, nplurals)
    ensures var e := entries[x];
      var lines := D.CommentLines(e, includeLocations) + D.IdLines(e) + D.TranslationLines(e, nplurals);
      After(r, f, n, lines).Some? && ReadSoFar(After(r, f, n, lines).value, entries, seen + [x], nplurals)
  {
    var e := entries[x];
    var doc := P.Flush(r).value.doc;
    ReadEntryLines(r, f, n, e, nplurals, includeLocations);
    var done := Closed(e, nplurals, doc);
    assert P.Consistent(done);
    FlushClosed(doc, e, nplurals);
    ReadBackAtAppend(entries, seen, x, nplurals);
  }

  // ---- Reading the entry loop ----

  /** No position occurs twice in `s`. */
  predicate Distinct(s: seq<nat>) {
    forall a, b :: 0 <= a < b < |s| ==> s[a] != s[b]
  }

  /** The positions of `order` whose entries are printed when nothing is
      pruned, in printing order. */
  function Emitted(entries: seq<TranslationEntry>, order: seq<nat>): (r: seq<nat>)
    requires D.InRange(entries, order)
    ensures D.InRange(entries, r)
    ensures forall y :: y in r <==> y in order && y < |entries| && D.Emits(entries[y], false)
    ensures Distinct(order) ==> Distinct(r)
  {
    if order == [] then []
    else
      var rest := Emitted(entries, order[1..]);
      assert forall y :: y in order[1..] ==> y in order;
      assert Distinct(order) ==> Distinct(order[1..]) && order[0] !in order[1..];
      if D.Emits(entries[order[0]], false) then [order[0]] + rest else rest
  }

  /** A blank line is ignored. */
  lemma {:induction false} BlankIgnored()
    ensures LineGrammar.Classify("") == LineGrammar.Ignored
  {
    assert SpaceRun("", 0) == 0;
  }

  /** One round of the entry loop: the blank line, if one is due, then
      the lines of the entry at `x`, which join the read entries when
      they are printed. */
  lemma {:induction false} ReadBlock(r: P.Reader, f: Option<string>, n: nat, entries: seq<TranslationEntry>, seen: seq<nat>,
                                     x: nat, nplurals: Option<int>, includeLocations: bool, needsBlank: bool)
    requires D.InRange(entries, seen) && x < |entries| && Readable(entries[x], nplurals) && UniqueIds(entries)
    requires D.Emits(entries[x], false) ==> x !in seen
    requires ReadSoFar(r, entries, seen, nplurals)
    ensures var lines := (if needsBlank then [""] else []) + D.DumpEntry(entries[x], nplurals, includeLocations, false).0;
      var next := if D.Emits(entries[x], false) then seen + [x] else seen;
      D.InRange(entries, next) && After(r, f, n, lines).Some? && ReadSoFar(After(r, f, n, lines).value, entries, next, nplurals)
  {
    var out := D.DumpEntry(entries[x], nplurals, includeLocations, false);
    var m: nat := n + |if needsBlank then [""] else []|;
    SkipBlank(r, f, n, needsBlank, out.0, m);
    if out.1 {
      var e := entries[x];
      assert out.0 == D.CommentLines(e, includeLocations) + D.IdLines(e) + D.TranslationLines(e, nplurals);
      OtherIds(entries, seen, x);
      ReadEntry(r, f, m, entries, seen, x, nplurals, includeLocations);
    } else {
      assert P.Run(r, f, m, out.0) == Ok(r);
    }
  }

  /** A blank line before the entry changes nothing. */
  lemma {:induction false} SkipBlank(r: P.Reader, f: Option<string>, n: nat, needsBlank: bool, lines: seq<string>, m: nat)
    requires m == n + |if needsBlank then [""] else []|
    ensures After(r, f, n, (if needsBlank then [""] else []) + lines) == After(r, f, m, lines)
  {
    if P.Consistent(r) {
      var blank: seq<string> := if needsBlank then [""] else [];
      BlankIgnored();
      P.RunIgnored(r, f, n, blank);
      RunThen(r, f, n, blank, lines, r, m);
    }
  }

  /** An entry not yet read has an id none of the read entries has. */
  lemma {:induction false} OtherIds(entries: seq<TranslationEntry>, seen: seq<nat>, x: nat)
    requires D.InRange(entries, seen) && x < |entries| && x !in seen && UniqueIds(entries)
    ensures forall j :: 0 <= j < |seen| ==> EntryId(entries[seen[j]]) != EntryId(entries[x])
  {
    forall j | 0 <= j < |seen| ensures EntryId(entries[seen[j]]) != EntryId(entries[x]) {
      assert seen[j] in seen;
    }
  }

  lemma {:induction false} DistinctHead(seen: seq<nat>, x: nat, rest: seq<nat>)
    requires Distinct(seen + ([x] + rest))
    ensures x !in seen
  {
    var all := seen + ([x] + rest);
    assert all[|seen|] == x;
    forall a | 0 <= a < |seen| ensures seen[a] != x {
      assert all[a] == seen[a];
    }
  }

  /** The entry loop over `order` is its first round, then the loop
      over the rest; the printed positions split the same way. */
  lemma {:induction false} FirstRound(entries: seq<TranslationEntry>, order: seq<nat>, seen: seq<nat>, nplurals: Option<int>,
                                      includeLocations: bool, needsBlank: bool)
    requires order != [] && D.InRange(entries, order)
    ensures var out := D.DumpEntry(entries[order[0]], nplurals, includeLocations, false);
      var next := if out.1 then seen + [order[0]] else seen;
      && next + Emitted(entries, order[1..]) == seen + Emitted(entries, order)
      && D.EntriesText(entries, order, nplurals, includeLocations, false, needsBlank) ==
         (if needsBlank then [""] else []) + out.0 + D.EntriesText(entries, order[1..], nplurals, includeLocations, false, out.1)
  {
    var out := D.DumpEntry(entries[order[0]], nplurals, includeLocations, false);
    var rest := Emitted(entries, order[1..]);
    if out.1 {
      assert seen + [order[0]] + rest == seen + ([order[0]] + rest);
    }
  }

  /** The first round of the entry loop over a non-empty `order`: the
      block of its first position is read, and the loop over the rest
      remains. */
  lemma {:induction false} ReadFirstBlock(r: P.Reader, f: Option<string>, n: nat, entries: seq<TranslationEntry>, order: seq<nat>,
                                          seen: seq<nat>, nplurals: Option<int>, includeLocations: bool, needsBlank: bool)
      returns (lines: seq<string>, next: seq<nat>, more: bool, r1: P.Reader)
    requires D.InRange(entries, order) && D.InRange(entries, seen) && order != []
    requires forall i :: 0 <= i < |entries| ==> Readable(entries[i], nplurals)
    requires UniqueIds(entries) && Distinct(seen + Emitted(entries, order))
    requires ReadSoFar(r, entries, seen, nplurals)
    ensures D.InRange(entries, order[1..]) && D.InRange(entries, next)
    ensures next + Emitted(entries, order[1..]) == seen + Emitted(entries, order)
    ensures D.EntriesText(entries, order, nplurals, includeLocations, false, needsBlank) ==
      lines + D.EntriesText(entries, order[1..], nplurals, includeLocations, false, more)
    ensures After(r, f, n, lines) == Some(r1) && ReadSoFar(r1, entries, next, nplurals)
  {
    var out := D.DumpEntry(entries[order[0]], nplurals, includeLocations, false);
    lines := (if needsBlank then [""] else []) + out.0;
    next := if out.1 then seen + [order[0]] else seen;
    more := out.1;
    FirstRound(entries, order, seen, nplurals, includeLocations, needsBlank);
    if out.1 {
      DistinctHead(seen, order[0], Emitted(entries, order[1..]));
    }
    ReadBlock(r, f, n, entries, seen, order[0], nplurals, includeLocations, needsBlank);
    r1 := After(r, f, n, lines).value;
  }

  /** The entry loop, read between messages, adds the read-backs of the
      printed entries, in printing order. */
  lemma {:induction false} ReadEntries(r: P.Reader, f: Option<string>, n: nat, entries: seq<TranslationEntry>, order: seq<nat>,
                                       seen: seq<nat>, nplurals: Option<int>, includeLocations: bool, needsBlank: bool)
    requires D.InRange(entries, order) && D.InRange(entries, seen)
    requires forall i :: 0 <= i < |entries| ==> Readable(entries[i], nplurals)
    requires UniqueIds(entries) && Distinct(seen + Emitted(entries, order))
    requires ReadSoFar(r, entries, seen, nplurals)
    ensures D.InRange(entries, seen + Emitted(entries, order))
    ensures var lines := D.EntriesText(entries, order, nplurals, includeLocations, false, needsBlank);
      After(r, f, n, lines).Some? && ReadSoFar(After(r, f, n, lines).value, entries, seen + Emitted(entries, order), nplurals)
    decreases |order|
  {
    if order == [] {
      assert seen + [] == seen;
    } else {
      var lines, next, more, r1 := ReadFirstBlock(r, f, n, entries, order, seen, nplurals, includeLocations, needsBlank);
      var m: nat := n + |lines|;
      ReadEntries(r1, f, m, entries, order[1..], next, nplurals, includeLocations, more);
      AfterThen(r, f, n, lines, D.EntriesText(entries, order[1..], nplurals, includeLocations, false, more), r1, m);
    }
  }

  // ---- Reading the header ----

  /** Quoted lines after the header's `msgstr ""` extend its translation
      and leave the reader after a translation. */
  lemma {:induction false} ReadContinuations(r: P.Reader, f: Option<string>, n: nat, lines: seq<string>)
    requires P.Consistent(r) && r.state == P.AfterMsgStr
    requires forall i :: 0 <= i < |lines| ==>
      LineGrammar.Classify(lines[i]).Continuation? && Strings.Unescape(LineGrammar.Classify(lines[i]).raw).Ok?
    ensures P.Run(r, f, n, lines).Ok?
    ensures P.Run(r, f, n, lines).value.state == P.AfterMsgStr
    ensures P.Run(r, f, n, lines).value.doc == r.doc
    ensures P.Run(r, f, n, lines).value.pending.message == r.pending.message
    decreases |lines|
  {
    if lines != [] {
      var k := LineGrammar.Classify(lines[0]);
      assert k.Continuation? && Strings.Unescape(k.raw).Ok?;
      assert P.Step(r, f, n, lines[0]) == P.StepContinuation(r, f, n, k.raw);
      RunCons(r, f, n, lines[0], lines[1..]);
      assert lines == [lines[0]] + lines[1..];
      var r1 := P.Step(r, f, n, lines[0]).value;
      forall i | 0 <= i < |lines[1..]|
        ensures LineGrammar.Classify(lines[1..][i]).Continuation? && Strings.Unescape(LineGrammar.Classify(lines[1..][i]).raw).Ok?
      {
        assert lines[1..][i] == lines[i + 1];
      }
      ReadContinuations(r1, f, n + 1, lines[1..]);
    }
  }

  /** The header block, with fields that need no escaping, leaves the
      reader after the header's translation with no entries read. */
  lemma {:induction false} ReadHeader(f: Option<string>, headers: seq<(string, string)>)
    requires forall i :: 0 <= i < |headers| ==> NeedsNoEscape(headers[i].0) && NeedsNoEscape(headers[i].1)
    ensures P.Run(P.Fresh(Empty()), f, 0, D.HeaderBlock(headers)).Ok?
    ensures Between(P.Run(P.Fresh(Empty()), f, 0, D.HeaderBlock(headers)).value)
    ensures P.Flush(P.Run(P.Fresh(Empty()), f, 0, D.HeaderBlock(headers)).value).value.doc.entries == []
  {
    var r0 := P.Fresh(Empty());
    var lines := seq(|headers|, i requires 0 <= i < |headers| => D.HeaderLine(headers[i]));
    var a := D.KeywordLine(LineGrammar.MsgId, None, "");
    var b := D.KeywordLine(LineGrammar.MsgStr, None, "");
    assert D.HeaderBlock(headers) == [a] + ([b] + lines);
    assert Strings.Escape("") == "";
    StepMessage(r0, f, 0, "");
    RunCons(r0, f, 0, a, [b] + lines);
    var r1 := P.Step(r0, f, 0, a).value;
    assert NeedsNoEscape("");
    StepSingular(r1, f, 1, "");
    RunCons(r1, f, 1, b, lines);
    var r2 := P.Step(r1, f, 1, b).value;
    forall i | 0 <= i < |lines|
      ensures LineGrammar.Classify(lines[i]).Continuation? && Strings.Unescape(LineGrammar.Classify(lines[i]).raw).Ok?
    {
      QuotedLineReads(headers[i].0 + ": " + headers[i].1 + "\\n");
      HeaderLineDecodes(headers[i]);
    }
    ReadContinuations(r2, f, 2, lines);
  }

  // ---- The whole document ----

  /** An entry that contributes to the catalog is printed. */
  lemma {:induction false} CatalogedIsPrinted(e: TranslationEntry)
    requires EntryCatalog(e) != map[]
    ensures D.Emits(e, false)
  {
    var k :| k in EntryCatalog(e);
    if e.plural.Some? {
      assert k in PluralKeys(EntryId(e), e.translations);
    }
  }

  /** Positions sorted by the printing order are distinct. */
  lemma {:induction false} SortedDistinct(entries: seq<TranslationEntry>, s: seq<nat>)
    requires D.SortedBy(entries, s)
    ensures Distinct(s)
  {
    forall a, b | 0 <= a < b < |s| ensures s[a] != s[b] {
      D.BeforeIrreflexive(entries, s[a]);
    }
  }

  /** The header block of a document, absent without header fields. */
  function HeadLines(headers: seq<(string, string)>): seq<string> {
    if headers == [] then [] else D.HeaderBlock(headers)
  }

  /** The header block leaves the reader between messages with no entry
      read. */
  lemma {:induction false} ReadHead(f: Option<string>, headers: seq<(string, string)>, entries: seq<TranslationEntry>, nplurals: Option<int>)
    requires forall i :: 0 <= i < |headers| ==> NeedsNoEscape(headers[i].0) && NeedsNoEscape(headers[i].1)
    ensures After(P.Fresh(Empty()), f, 0, HeadLines(headers)).Some?
    ensures ReadSoFar(After(P.Fresh(Empty()), f, 0, HeadLines(headers)).value, entries, [], nplurals)
  {
    if headers != [] {
      ReadHeader(f, headers);
    }
  }

  /** A document printed without pruning is its header block, then the
      entry loop over the printing order. */
  lemma {:induction false} DumpText(d: PoFile, includeLocations: bool)
    requires D.NPlurals(d.headers).Ok?
    ensures D.Dump(d, includeLocations, false) ==
      Ok(HeadLines(d.headers) + D.EntriesText(d.entries, D.Order(d.entries, |d.entries|), D.NPlurals(d.headers).value,
                                              includeLocations, false, d.headers != []))
  {
  }

  /** At the end of the file, a reader between messages gives the entries
      it holds. */
  lemma {:induction false} FinishLoaded(r: P.Reader, f: Option<string>)
    requires Loaded(r).Some?
    ensures P.Finish(r, f).Ok? && P.Finish(r, f).value.entries == Loaded(r).value
  {
    FlushBetween(r);
  }

  /** Reading a header block, then the entry loop over `order`, gives the
      read-backs of the printed entries, in printing order. */
  lemma {:induction false} ParseText(f: Option<string>, headers: seq<(string, string)>, entries: seq<TranslationEntry>,
                                     order: seq<nat>, nplurals: Option<int>, includeLocations: bool)
    requires forall i :: 0 <= i < |headers| ==> NeedsNoEscape(headers[i].0) && NeedsNoEscape(headers[i].1)
    requires forall i :: 0 <= i < |entries| ==> Readable(entries[i], nplurals)
    requires D.InRange(entries, order) && UniqueIds(entries) && Distinct(Emitted(entries, order))
    ensures var out := P.ParseInto(Empty(), f, HeadLines(headers) + D.EntriesText(entries, order, nplurals, includeLocations, false, headers != []));
      out.Ok? && out.value.entries == ReadBackAt(entries, Emitted(entries, order), nplurals)
  {
    var head := HeadLines(headers);
    var body := D.EntriesText(entries, order, nplurals, includeLocations, false, headers != []);
    var emitted := Emitted(entries, order);
    assert [] + emitted == emitted;
    var r := P.Fresh(Empty());
    ReadHead(f, headers, entries, nplurals);
    var r0 := After(r, f, 0, head).value;
    ReadEntries(r0, f, |head|, entries, order, [], nplurals, includeLocations, headers != []);
    AfterThen(r, f, 0, head, body, r0, |head|);
    FinishLoaded(After(r0, f, |head|, body).value, f);
  }

  /** Reading a document printed without pruning gives the read-backs of
      its printed entries, in printing order. */
  lemma {:induction false} ReadDump(d: PoFile, includeLocations: bool, f: Option<string>)
    requires Valid(d) && D.NPlurals(d.headers).Ok?
    requires forall i :: 0 <= i < |d.entries| ==> Readable(d.entries[i], D.NPlurals(d.headers).value)
    requires forall i :: 0 <= i < |d.headers| ==> NeedsNoEscape(d.headers[i].0) && NeedsNoEscape(d.headers[i].1)
    ensures D.Dump(d, includeLocations, false).Ok?
    ensures var emitted := Emitted(d.entries, D.Order(d.entries, |d.entries|));
      var out := P.ParseInto(Empty(), f, D.Dump(d, includeLocations, false).value);
      out.Ok? && out.value.entries == ReadBackAt(d.entries, emitted, D.NPlurals(d.headers).value)
  {
    var order := D.Order(d.entries, |d.entries|);
    SortedDistinct(d.entries, order);
    DumpText(d, includeLocations);
    ParseText(f, d.headers, d.entries, order, D.NPlurals(d.headers).value, includeLocations);
  }

  /** The read-backs of the printed entries, which hold every entry that
      contributes to the catalog, give the catalog of the entries. */
  lemma {:induction false} ReadBackCatalogOf(entries: seq<TranslationEntry>, emitted: seq<nat>, nplurals: Option<int>)
    requires UniqueIds(entries) && D.InRange(entries, emitted) && UniqueIds(ReadBackAt(entries, emitted, nplurals))
    requires forall i :: 0 <= i < |entries| ==> Readable(entries[i], nplurals)
    requires forall i :: 0 <= i < |entries| && D.Emits(entries[i], false) ==> i in emitted
    ensures CatalogOf(ReadBackAt(entries, emitted, nplurals)) == CatalogOf(entries)
  {
    var b := ReadBackAt(entries, emitted, nplurals);
    forall i | 0 <= i < |entries| && EntryCatalog(entries[i]) != map[] ensures i in emitted {
      CatalogedIsPrinted(entries[i]);
    }
    forall j | 0 <= j < |b| ensures EntryCatalog(b[j]) == EntryCatalog(entries[emitted[j]]) {
      ReadBackCatalog(entries[emitted[j]], nplurals);
    }
    CatalogOfPermutation(entries, b, emitted);
  }

  /** Printing a document without pruning and reading the lines back
      gives the document's catalog, when its translations and header
      fields need no escaping, its messages are not empty and the plural
      count covers the translated forms. */
  lemma {:induction false} DumpThenParse(d: PoFile, includeLocations: bool, f: Option<string>)
    requires Valid(d) && D.NPlurals(d.headers).Ok?
    requires forall i :: 0 <= i < |d.entries| ==> Readable(d.entries[i], D.NPlurals(d.headers).value)
    requires forall i :: 0 <= i < |d.headers| ==> NeedsNoEscape(d.headers[i].0) && NeedsNoEscape(d.headers[i].1)
    ensures D.Dump(d, includeLocations, false).Ok?
    ensures P.ParseCatalog(f, D.Dump(d, includeLocations, false).value) == Ok(GetCatalog(d))
  {
    var nplurals := D.NPlurals(d.headers).value;
    var order := D.Order(d.entries, |d.entries|);
    var emitted := Emitted(d.entries, order);
    ReadDump(d, includeLocations, f);
    ReadBackCatalogOf(d.entries, emitted, nplurals);
  }
}
