/** The catalog file reader: a state machine folded over the classified
    lines of a file. It accumulates a pending message (context, id, plural
    id, translation or indexed translations) and flushes it into the
    document when the next message starts and at the end of the file. A
    pending message with the empty id is the header: its translation is
    read as `Name: value` lines. */
module Parser {
  import opened Wrappers
  import opened Text
  import Strings
  import Po
  import opened LineGrammar

  /** What the last keyword was. */
  datatype State = Start | AfterMsgCtxt | AfterMsgId | AfterMsgIdPlural | AfterMsgStr | AfterMsgStrN

  /** The name the reader's messages give a state. */
  function StateName(s: State): string {
    match s
    case Start => "start"
    case AfterMsgCtxt => "after msgctxt"
    case AfterMsgId => "after msgid"
    case AfterMsgIdPlural => "after msgid_plural"
    case AfterMsgStr => "after msgstr"
    case AfterMsgStrN => "after msgstr[N]"
  }

  /** The message read so far; `current` is the index of the last
      `msgstr[N]`, which continuation lines extend. */
  datatype Pending = Pending(
    context: Option<string>,
    message: Option<string>,
    plural: Option<string>,
    translated: Option<string>,
    current: nat,
    plurals: map<nat, string>)

  const NoPending: Pending := Pending(None, None, None, None, 0, map[])

  datatype Reader = Reader(state: State, pending: Pending, doc: Po.PoFile)

  /** A reader that starts on `doc` (a fresh document, or a copy of one
      being merged into). */
  function Fresh(doc: Po.PoFile): Reader {
    Reader(Start, NoPending, doc)
  }

  // ---- Errors ----

  /** What went wrong. `InvalidSyntax` carries the line as read here,
      without its terminator; the code's message includes the line feed
      that iterating over the file keeps. */
  datatype ErrorKind =
    | InvalidSyntax(text: string)
    | UnexpectedPluralIndex
    | MissingPluralIndex
    | DuplicatePluralIndex(index: nat)
    | UnexpectedContinuation(state: State)
    | UnexpectedKeyword(kw: Keyword)
    | BadEscape(escape: Strings.UnescapeError)
    | UnexpectedEndOfFile

  /** The reader's own error: the file name given by the caller, the
      0-based line number (absent at the end of the file) and what went
      wrong. */
  datatype ParseError = ParseError(filename: Option<string>, line: Option<nat>, kind: ErrorKind)

  /** Exceptions the reader does not catch: the header block that ends in
      indexed translations has no plain translation to split, and a code
      point beyond the Unicode range makes `chr` fail. */
  datatype Crash = HeaderWithoutTranslation | CodePointOutOfRange(code: nat)

  datatype Failure = Parse(error: ParseError) | Crashed(crash: Crash)

  /** Unescapes the string of line `n`: a bad escape is the reader's error
      at that line, an out-of-range code point is not caught. */
  function Decode(raw: string, filename: Option<string>, n: nat): (r: Result<string, Failure>)
    ensures Strings.Unescape(raw).Ok? <==> r.Ok?
    ensures r.Ok? ==> r.value == Strings.Unescape(raw).value
    ensures r.Err? && r.error.Parse? ==>
      r.error.error == ParseError(filename, Some(n), BadEscape(Strings.Unescape(raw).error))
  {
    match Strings.Unescape(raw)
    case Ok(v) => Ok(v)
    case Err(NotAChar(code)) => Err(Crashed(CodePointOutOfRange(code)))
    case Err(e) => Err(Parse(ParseError(filename, Some(n), BadEscape(e))))
  }

  function Fail(filename: Option<string>, n: nat, kind: ErrorKind): Result<Reader, Failure> {
    Err(Parse(ParseError(filename, Some(n), kind)))
  }

  // ---- The representation invariant ----

  /** What each state guarantees about the pending message. */
  predicate Consistent(r: Reader) {
    var p := r.pending;
    Po.Valid(r.doc) &&
    match r.state
    case Start => p == NoPending
    case AfterMsgCtxt => p.context.Some? && p.message.None? && p.plural.None? && p.translated.None? && p.plurals == map[]
    case AfterMsgId => p.message.Some? && p.plural.None? && p.translated.None? && p.plurals == map[]
    case AfterMsgIdPlural => p.message.Some? && p.plural.Some? && p.translated.None? && p.plurals == map[]
    case AfterMsgStr => p.message.Some? && p.plural.None? && p.translated.Some? && p.plurals == map[]
    case AfterMsgStrN => p.message.Some? && p.plural.Some? && p.translated.None? && p.current in p.plurals
  }

  // ---- Flushing the pending message ----

  /** The fields the header's translation names, in order: each non-empty
      line split at its first colon into a name and a stripped value. */
  function HeaderFields(lines: seq<string>): (r: seq<(string, string)>)
    ensures |r| <= |lines|
    decreases |lines|
  {
    if lines == [] then []
    else
      var line := lines[|lines| - 1];
      var init := HeaderFields(lines[..|lines| - 1]);
      if line == [] then init
      else init + [(Partition(line, ':').0, Strip(Partition(line, ':').1))]
  }

  /** The names of a list of fields. */
  function Names(fields: seq<(string, string)>): set<string> {
    set i | 0 <= i < |fields| :: fields[i].0
  }

  /** No field is named twice, nor named by the index already. */
  predicate FreshNames(index: map<string, nat>, fields: seq<(string, string)>) {
    forall i :: 0 <= i < |fields| ==>
      fields[i].0 !in index && forall j :: 0 <= j < i ==> fields[j].0 != fields[i].0
  }

  lemma {:induction false} FreshNamesSnoc(index: map<string, nat>, init: seq<(string, string)>, field: (string, string))
    ensures Names(init + [field]) == Names(init) + {field.0}
    ensures FreshNames(index, init + [field]) <==>
      FreshNames(index, init) && field.0 !in index && field.0 !in Names(init)
  {
    var fields := init + [field];
    assert forall i :: 0 <= i < |init| ==> fields[i] == init[i];
    assert fields[|init|] == field;
    if field.0 in Names(init) {
      var j :| 0 <= j < |init| && init[j].0 == field.0;
      assert fields[j].0 == fields[|init|].0;
    }
  }

  /** Adds the header fields of the header's translation, in order, with
      the setter that overwrites a repeated field. */
  function AddHeaderLines(doc: Po.PoFile, lines: seq<string>): (r: Po.PoFile)
    requires Po.Valid(doc)
    ensures Po.Valid(r) && r.entries == doc.entries
    ensures forall i :: 0 <= i < |lines| && lines[i] != [] ==> Partition(lines[i], ':').0 in r.headerIndex
    decreases |lines|
  {
    if lines == [] then doc
    else
      var line := lines[|lines| - 1];
      var d := AddHeaderLines(doc, lines[..|lines| - 1]);
      assert forall i :: 0 <= i < |lines| - 1 ==> lines[..|lines| - 1][i] == lines[i];
      if line == [] then d
      else
        var parts := Partition(line, ':');
        Po.AddHeaderField(d, parts.0, Strip(parts.1))
  }

  /** The header lines index exactly the names `HeaderFields` lists. */
  lemma {:induction false} HeaderLineNames(doc: Po.PoFile, lines: seq<string>)
    requires Po.Valid(doc)
    ensures AddHeaderLines(doc, lines).headerIndex.Keys == doc.headerIndex.Keys + Names(HeaderFields(lines))
    decreases |lines|
  {
    if lines != [] {
      var line := lines[|lines| - 1];
      HeaderLineNames(doc, lines[..|lines| - 1]);
      if line != [] {
        var parts := Partition(line, ':');
        var field := (parts.0, Strip(parts.1));
        var init := HeaderFields(lines[..|lines| - 1]);
        assert HeaderFields(lines) == init + [field];
        FreshNamesSnoc(doc.headerIndex, init, field);
      }
    }
  }

  /** When no field is named twice or known already, the header lines
      append their fields in order. */
  lemma {:induction false} HeaderLinesAppend(doc: Po.PoFile, lines: seq<string>)
    requires Po.Valid(doc) && FreshNames(doc.headerIndex, HeaderFields(lines))
    ensures AddHeaderLines(doc, lines).headers == doc.headers + HeaderFields(lines)
    decreases |lines|
  {
    if lines != [] {
      var line := lines[|lines| - 1];
      var init := HeaderFields(lines[..|lines| - 1]);
      if line == [] {
        HeaderLinesAppend(doc, lines[..|lines| - 1]);
      } else {
        var parts := Partition(line, ':');
        var field := (parts.0, Strip(parts.1));
        assert HeaderFields(lines) == init + [field];
        FreshNamesSnoc(doc.headerIndex, init, field);
        HeaderLinesAppend(doc, lines[..|lines| - 1]);
        HeaderLineNames(doc, lines[..|lines| - 1]);
      }
    }
  }

  /** The header fields added with the setter as written, which fails on a
      field named before. */
  function AddHeaderLinesAsWritten(doc: Po.PoFile, lines: seq<string>): (r: Result<Po.PoFile, Po.HeaderFault>)
    ensures r.Ok? ==> r.value.entries == doc.entries
    decreases |lines|
  {
    if lines == [] then Ok(doc)
    else
      var line := lines[|lines| - 1];
      if line == [] then AddHeaderLinesAsWritten(doc, lines[..|lines| - 1])
      else
        var parts := Partition(line, ':');
        var d :- AddHeaderLinesAsWritten(doc, lines[..|lines| - 1]);
        Po.AddHeaderFieldAsWritten(d, parts.0, Strip(parts.1))
  }

  /** As written, the header lines fail exactly when a field is named
      twice or known already, and otherwise are appended in order. */
  lemma {:induction false} AsWrittenHeaderLines(doc: Po.PoFile, lines: seq<string>)
    ensures AddHeaderLinesAsWritten(doc, lines).Ok? <==> FreshNames(doc.headerIndex, HeaderFields(lines))
    ensures AddHeaderLinesAsWritten(doc, lines).Ok? ==>
      AddHeaderLinesAsWritten(doc, lines).value.headers == doc.headers + HeaderFields(lines) &&
      AddHeaderLinesAsWritten(doc, lines).value.headerIndex.Keys == doc.headerIndex.Keys + Names(HeaderFields(lines))
    decreases |lines|
  {
    if lines != [] {
      var line := lines[|lines| - 1];
      var init := HeaderFields(lines[..|lines| - 1]);
      AsWrittenHeaderLines(doc, lines[..|lines| - 1]);
      if line != [] {
        var parts := Partition(line, ':');
        var field := (parts.0, Strip(parts.1));
        assert HeaderFields(lines) == init + [field];
        FreshNamesSnoc(doc.headerIndex, init, field);
      }
    }
  }

  /** Whenever the as-written reading succeeds, the two agree. */
  lemma {:induction false} AddHeaderLinesAgrees(doc: Po.PoFile, lines: seq<string>)
    requires Po.Valid(doc) && AddHeaderLinesAsWritten(doc, lines).Ok?
    ensures AddHeaderLinesAsWritten(doc, lines).value == AddHeaderLines(doc, lines)
    decreases |lines|
  {
    if lines != [] {
      var line := lines[|lines| - 1];
      if line == [] {
        AddHeaderLinesAgrees(doc, lines[..|lines| - 1]);
      } else {
        var parts := Partition(line, ':');
        AddHeaderLinesAgrees(doc, lines[..|lines| - 1]);
        Po.AddHeaderFieldAgrees(AddHeaderLines(doc, lines[..|lines| - 1]), parts.0, Strip(parts.1));
      }
    }
  }

  /** A header naming `Language` twice: as written the second line fails,
      where the setter that overwrites keeps one field with the later
      value. */
  lemma {:induction false} RepeatedHeaderLine()
    ensures AddHeaderLinesAsWritten(Po.Empty(), ["Language: fr", "Language: en", ""]).Err?
    ensures AddHeaderLines(Po.Empty(), ["Language: fr", "Language: en", ""]).headers == [("Language", "en")]
  {
    assert "Language: fr" == "Language" + [':'] + " fr";
    assert "Language: en" == "Language" + [':'] + " en";
    PartitionAt("Language", " fr", ':');
    PartitionAt("Language", " en", ':');
    SameFieldTwiceFails("Language: fr", "Language: en");
    SameFieldTwiceOverwrites("Language: fr", "Language: en");
    StripEn();
  }

  lemma {:induction false} StripEn()
    ensures Strip(" en") == "en"
  {
    var v := " en";
    assert v[0] == ' ' && v[1] == 'e' && v[1..] == "en";
    SpaceRunStops(v, 0, 1);
    assert StripLeft(v) == "en";
    assert "en"[1] == 'n' && "en"[..2] == "en";
    TrimEndStops("en", 2, 2);
  }

  /** Two header lines naming the same field, then the empty last line:
      as written the second one fails. */
  lemma {:induction false} SameFieldTwiceFails(a: string, b: string)
    requires a != [] && b != [] && Partition(a, ':').0 == Partition(b, ':').0
    ensures AddHeaderLinesAsWritten(Po.Empty(), [a, b, ""]).Err?
  {
    var lines := [a, b, ""];
    assert lines[..2] == [a, b] && lines[..2][..1] == [a] && [a][..0] == [];
    var fields := HeaderFields(lines);
    assert fields == HeaderFields([a, b]);
    assert fields == HeaderFields([a]) + [(Partition(b, ':').0, Strip(Partition(b, ':').1))];
    assert fields[0].0 == fields[1].0;
    AsWrittenHeaderLines(Po.Empty(), lines);
  }

  /** The same two lines with the overwriting setter keep the later value. */
  lemma {:induction false} SameFieldTwiceOverwrites(a: string, b: string)
    requires a != [] && b != [] && Partition(a, ':').0 == Partition(b, ':').0
    ensures AddHeaderLines(Po.Empty(), [a, b, ""]).headers == [(Partition(b, ':').0, Strip(Partition(b, ':').1))]
  {
    var lines := [a, b, ""];
    assert lines[..2] == [a, b] && lines[..2][..1] == [a] && [a][..0] == [];
    var first := AddHeaderLines(Po.Empty(), [a]);
    assert AddHeaderLines(Po.Empty(), []) == Po.Empty();
    assert first == Po.AddHeaderField(Po.Empty(), Partition(a, ':').0, Strip(Partition(a, ':').1));
    assert AddHeaderLines(Po.Empty(), lines) == Po.AddHeaderField(first, Partition(b, ':').0, Strip(Partition(b, ':').1));
  }

  /** Stores the pending message in the document and forgets it; the state
      is left as it is. */
  function Flush(r: Reader): (out: Result<Reader, Failure>)
    requires Consistent(r)
    ensures out.Ok? ==> out.value.state == r.state && out.value.pending == NoPending && Po.Valid(out.value.doc)
    ensures out.Err? <==> r.pending.message == Some([]) && r.pending.translated.None?
    ensures out.Err? ==> out.error == Crashed(HeaderWithoutTranslation)
    ensures r.pending.message.None? ==> out == Ok(r.(pending := NoPending))
    ensures out.Ok? && r.pending.message == Some([]) ==> out.value.doc.entries == r.doc.entries
  {
    var p := r.pending;
    match p.message
    case None => Ok(r.(pending := NoPending))
    case Some(m) =>
      if m == [] then
        match p.translated
        case None => Err(Crashed(HeaderWithoutTranslation))
        case Some(t) => Ok(Reader(r.state, NoPending, AddHeaderLines(r.doc, Split(t, '\n'))))
      else
        Ok(Reader(r.state, NoPending, StoreEntry(r.doc, r.state, p)))
  }

  /** The translations a flush gives its entry: the plain one after
      `msgstr` (at index 0), the indexed ones after `msgstr[N]`, none
      otherwise. */
  function Stored(state: State, p: Pending): (t: map<nat, string>)
    requires state == AfterMsgStr ==> p.translated.Some?
    ensures state == AfterMsgStr ==> t == map[0 := p.translated.value]
    ensures state == AfterMsgStrN ==> t == p.plurals
    ensures state !in {AfterMsgStr, AfterMsgStrN} ==> t == map[]
  {
    if state == AfterMsgStr then map[0 := p.translated.value]
    else if state == AfterMsgStrN then p.plurals
    else map[]
  }

  /** Adds (or finds) the entry of the pending message and gives it the
      pending translations; no other entry changes. */
  function StoreEntry(doc: Po.PoFile, state: State, p: Pending): (d: Po.PoFile)
    requires Po.Valid(doc) && p.message.Some?
    requires state == AfterMsgStr ==> p.translated.Some?
    ensures Po.Valid(d) && d.headers == doc.headers && d.headerIndex == doc.headerIndex
    ensures var id := Po.MsgId(p.message.value, p.context);
      var j := Po.FindEntry(d.entries, id);
      j.Some? &&
      (state == AfterMsgStr ==> 0 in d.entries[j.value].translations && d.entries[j.value].translations[0] == p.translated.value) &&
      (state == AfterMsgStrN ==> forall i :: i in p.plurals ==> i in d.entries[j.value].translations && d.entries[j.value].translations[i] == p.plurals[i])
    ensures var j := Po.FindEntry(d.entries, Po.MsgId(p.message.value, p.context));
      j.Some? && |doc.entries| <= |d.entries| <= |doc.entries| + 1 &&
      forall i :: 0 <= i < |doc.entries| && i != j.value ==> d.entries[i] == doc.entries[i]
  {
    var (d1, j) := Po.AddEntry(doc, p.message.value, p.plural, p.context);
    var e := d1.entries[j];
    var d := Po.SetEntry(d1, j, e.(translations := e.translations + Stored(state, p)));
    assert Po.FindEntry(d.entries, Po.MsgId(p.message.value, p.context)) == Some(j);
    d
  }

  /** A message seen before keeps its position and its plural form if it
      had one, and its translations are those the new ones do not replace
      and the new ones. */
  lemma {:induction false} StoredKnownEntry(doc: Po.PoFile, state: State, p: Pending)
    requires Po.Valid(doc) && p.message.Some?
    requires state == AfterMsgStr ==> p.translated.Some?
    requires Po.FindEntry(doc.entries, Po.MsgId(p.message.value, p.context)).Some?
    ensures var j := Po.FindEntry(doc.entries, Po.MsgId(p.message.value, p.context)).value;
      var e := doc.entries[j];
      var d := StoreEntry(doc, state, p);
      Po.FindEntry(d.entries, Po.MsgId(p.message.value, p.context)) == Some(j) && |d.entries| == |doc.entries| &&
      d.entries[j] == e.(plural := if e.plural.None? then p.plural else e.plural, translations := e.translations + Stored(state, p))
  {
    var (d1, j) := Po.AddEntry(doc, p.message.value, p.plural, p.context);
  }

  /** A new message is appended with only the new translations. */
  lemma {:induction false} StoredNewEntry(doc: Po.PoFile, state: State, p: Pending)
    requires Po.Valid(doc) && p.message.Some?
    requires state == AfterMsgStr ==> p.translated.Some?
    requires Po.FindEntry(doc.entries, Po.MsgId(p.message.value, p.context)).None?
    ensures var d := StoreEntry(doc, state, p);
      Po.FindEntry(d.entries, Po.MsgId(p.message.value, p.context)) == Some(|doc.entries|) &&
      d.entries == doc.entries + [Po.NewEntry(p.message.value, p.plural, p.context).(translations := Stored(state, p))]
  {
    var (d1, j) := Po.AddEntry(doc, p.message.value, p.plural, p.context);
    var e := d1.entries[j];
    assert e.translations == map[] && e.translations + Stored(state, p) == Stored(state, p);
    var e' := e.(translations := Stored(state, p));
    assert d1.entries[j := e'] == doc.entries + [e'];
  }

  /** Every other message keeps its position and its entry. */
  lemma {:induction false} StoreKeepsOthers(doc: Po.PoFile, state: State, p: Pending, id: string)
    requires Po.Valid(doc) && p.message.Some?
    requires state == AfterMsgStr ==> p.translated.Some?
    requires id != Po.MsgId(p.message.value, p.context)
    ensures var d := StoreEntry(doc, state, p);
      Po.FindEntry(d.entries, id) == Po.FindEntry(doc.entries, id) &&
      (Po.FindEntry(doc.entries, id).Some? ==>
        d.entries[Po.FindEntry(doc.entries, id).value] == doc.entries[Po.FindEntry(doc.entries, id).value])
  {
    var target := Po.MsgId(p.message.value, p.context);
    var d := StoreEntry(doc, state, p);
    if Po.FindEntry(doc.entries, target).None? {
      StoredNewEntry(doc, state, p);
      Po.FindEntryAppend(doc.entries, d.entries[|doc.entries|], id);
    } else {
      StoredKnownEntry(doc, state, p);
      var j := Po.FindEntry(doc.entries, target).value;
      assert d.entries == doc.entries[j := d.entries[j]];
      Po.FindEntryReplace(doc.entries, j, d.entries[j], id);
    }
  }

  // ---- One line ----

  /** A keyword line, in the order the reader tests: the keyword's allowed
      states first, then the index, then the string. */
  function StepKeyword(r: Reader, filename: Option<string>, n: nat, kw: Keyword, index: Option<nat>, raw: string): (out: Result<Reader, Failure>)
    requires Consistent(r)
  {
    var s := r.state;
    if kw == MsgCtxt && (s == Start || s == AfterMsgStr || s == AfterMsgStrN) then
      var f :- Flush(r);
      var c :- Decode(raw, filename, n);
      Ok(Reader(AfterMsgCtxt, f.pending.(context := Some(c)), f.doc))
    else if kw == MsgId && (s == Start || s == AfterMsgCtxt || s == AfterMsgStr || s == AfterMsgStrN) then
      var f :- if s == AfterMsgCtxt then Ok(r) else Flush(r);
      var m :- Decode(raw, filename, n);
      Ok(Reader(AfterMsgId, f.pending.(message := Some(m)), f.doc))
    else if kw == MsgIdPlural && s == AfterMsgId then
      var m :- Decode(raw, filename, n);
      Ok(Reader(AfterMsgIdPlural, r.pending.(plural := Some(m)), r.doc))
    else if kw == MsgStr && (s == AfterMsgId || s == AfterMsgIdPlural || s == AfterMsgStrN) then
      if s == AfterMsgId then
        if index.Some? then Fail(filename, n, UnexpectedPluralIndex)
        else
          var t :- Decode(raw, filename, n);
          Ok(Reader(AfterMsgStr, r.pending.(translated := Some(t)), r.doc))
      else if index.None? then Fail(filename, n, MissingPluralIndex)
      else if index.value in r.pending.plurals then Fail(filename, n, DuplicatePluralIndex(index.value))
      else
        var t :- Decode(raw, filename, n);
        var p := r.pending;
        Ok(Reader(AfterMsgStrN, p.(current := index.value, plurals := p.plurals[index.value := t]), r.doc))
    else Fail(filename, n, UnexpectedKeyword(kw))
  }

  /** A continuation string extends the field the last keyword opened. */
  function StepContinuation(r: Reader, filename: Option<string>, n: nat, raw: string): (out: Result<Reader, Failure>)
    requires Consistent(r)
  {
    var p := r.pending;
    if r.state == Start then Fail(filename, n, UnexpectedContinuation(Start))
    else
      var t :- Decode(raw, filename, n);
      match r.state
      case AfterMsgCtxt => Ok(r.(pending := p.(context := Some(p.context.value + t))))
      case AfterMsgId => Ok(r.(pending := p.(message := Some(p.message.value + t))))
      case AfterMsgIdPlural => Ok(r.(pending := p.(plural := Some(p.plural.value + t))))
      case AfterMsgStr => Ok(r.(pending := p.(translated := Some(p.translated.value + t))))
      case AfterMsgStrN => Ok(r.(pending := p.(plurals := p.plurals[p.current := p.plurals[p.current] + t])))
  }

  /** Reads line `n` (0-based). */
  function Step(r: Reader, filename: Option<string>, n: nat, line: string): (out: Result<Reader, Failure>)
    requires Consistent(r)
  {
    match Classify(line)
    case Ignored => Ok(r)
    case SyntaxError => Fail(filename, n, InvalidSyntax(line))
    case KeywordLine(kw, index, raw) => StepKeyword(r, filename, n, kw, index, raw)
    case Continuation(raw) => StepContinuation(r, filename, n, raw)
  }

  /** The state the reader's table allows after a line of the given kind,
      if any: this is the table of allowed keyword orders, independent of
      the pending text. */
  function NextState(s: State, k: LineKind): Option<State> {
    match k
    case Ignored => Some(s)
    case SyntaxError => None
    case Continuation(_) => if s == Start then None else Some(s)
    case KeywordLine(kw, index, _) =>
      match kw
      case MsgCtxt => if s in {Start, AfterMsgStr, AfterMsgStrN} then Some(AfterMsgCtxt) else None
      case MsgId => if s in {Start, AfterMsgCtxt, AfterMsgStr, AfterMsgStrN} then Some(AfterMsgId) else None
      case MsgIdPlural => if s == AfterMsgId then Some(AfterMsgIdPlural) else None
      case MsgStr =>
        if index.None? then (if s == AfterMsgId then Some(AfterMsgStr) else None)
        else if s in {AfterMsgIdPlural, AfterMsgStrN} then Some(AfterMsgStrN) else None
  }

  /** Every successful step keeps the invariant and moves as the table
      says; a line the table refuses is the reader's error at that line. */
  lemma {:induction false} StepFollowsTable(r: Reader, filename: Option<string>, n: nat, line: string)
    requires Consistent(r)
    ensures Step(r, filename, n, line).Ok? ==>
      Consistent(Step(r, filename, n, line).value) &&
      NextState(r.state, Classify(line)) == Some(Step(r, filename, n, line).value.state)
    ensures NextState(r.state, Classify(line)).None? ==>
      Step(r, filename, n, line).Err? && Step(r, filename, n, line).error.Parse? &&
      Step(r, filename, n, line).error.error.line == Some(n)
  {
    match Classify(line)
    case Ignored =>
    case SyntaxError =>
    case KeywordLine(kw, index, raw) => KeywordFollowsTable(r, filename, n, kw, index, raw);
    case Continuation(raw) => ContinuationFollowsTable(r, filename, n, raw);
  }

  lemma {:induction false} KeywordFollowsTable(r: Reader, filename: Option<string>, n: nat, kw: Keyword, index: Option<nat>, raw: string)
    requires Consistent(r)
    ensures var out := StepKeyword(r, filename, n, kw, index, raw);
      (out.Ok? ==> Consistent(out.value) && NextState(r.state, KeywordLine(kw, index, raw)) == Some(out.value.state)) &&
      (NextState(r.state, KeywordLine(kw, index, raw)).None? ==> out.Err? && out.error.Parse? && out.error.error.line == Some(n))
  {
    match kw
    case MsgCtxt => ContextFollowsTable(r, filename, n, index, raw);
    case MsgId => MessageFollowsTable(r, filename, n, index, raw);
    case MsgIdPlural =>
    case MsgStr => TranslationFollowsTable(r, filename, n, index, raw);
  }

  lemma {:induction false} ContextFollowsTable(r: Reader, filename: Option<string>, n: nat, index: Option<nat>, raw: string)
    requires Consistent(r)
    ensures var out := StepKeyword(r, filename, n, MsgCtxt, index, raw);
      (out.Ok? ==> Consistent(out.value) && NextState(r.state, KeywordLine(MsgCtxt, index, raw)) == Some(out.value.state)) &&
      (NextState(r.state, KeywordLine(MsgCtxt, index, raw)).None? ==> out.Err? && out.error.Parse? && out.error.error.line == Some(n))
  {
    if r.state in {Start, AfterMsgStr, AfterMsgStrN} {
      var f := Flush(r);
      var c := Decode(raw, filename, n);
      if f.Ok? && c.Ok? {
        var r' := Reader(AfterMsgCtxt, NoPending.(context := Some(c.value)), f.value.doc);
        assert StepKeyword(r, filename, n, MsgCtxt, index, raw) == Ok(r');
        assert Consistent(r');
      }
    }
  }

  lemma {:induction false} MessageFollowsTable(r: Reader, filename: Option<string>, n: nat, index: Option<nat>, raw: string)
    requires Consistent(r)
    ensures var out := StepKeyword(r, filename, n, MsgId, index, raw);
      (out.Ok? ==> Consistent(out.value) && NextState(r.state, KeywordLine(MsgId, index, raw)) == Some(out.value.state)) &&
      (NextState(r.state, KeywordLine(MsgId, index, raw)).None? ==> out.Err? && out.error.Parse? && out.error.error.line == Some(n))
  {
    if r.state in {Start, AfterMsgStr, AfterMsgStrN} {
      var f := Flush(r);
    }
  }

  lemma {:induction false} TranslationFollowsTable(r: Reader, filename: Option<string>, n: nat, index: Option<nat>, raw: string)
    requires Consistent(r)
    ensures var out := StepKeyword(r, filename, n, MsgStr, index, raw);
      (out.Ok? ==> Consistent(out.value) && NextState(r.state, KeywordLine(MsgStr, index, raw)) == Some(out.value.state)) &&
      (NextState(r.state, KeywordLine(MsgStr, index, raw)).None? ==> out.Err? && out.error.Parse? && out.error.error.line == Some(n))
  {
  }

  lemma {:induction false} ContinuationFollowsTable(r: Reader, filename: Option<string>, n: nat, raw: string)
    requires Consistent(r)
    ensures var out := StepContinuation(r, filename, n, raw);
      (out.Ok? ==> Consistent(out.value) && out.value.state == r.state && r.state != Start) &&
      (r.state == Start ==> out == Fail(filename, n, UnexpectedContinuation(Start)))
  {
  }

  /** A refused line is reported with its own line number and the reason
      the table gives. */
  lemma {:induction false} RefusedKeyword(r: Reader, filename: Option<string>, n: nat, kw: Keyword, index: Option<nat>, raw: string)
    requires Consistent(r)
    requires NextState(r.state, KeywordLine(kw, index, raw)).None?
    ensures StepKeyword(r, filename, n, kw, index, raw) ==
      Fail(filename, n,
        if kw == MsgStr && r.state == AfterMsgId then UnexpectedPluralIndex
        else if kw == MsgStr && r.state in {AfterMsgIdPlural, AfterMsgStrN} then MissingPluralIndex
        else UnexpectedKeyword(kw))
  {
  }

  // ---- The whole file ----

  /** Reads `lines`, numbered from `n`, stopping at the first failure. */
  function Run(r: Reader, filename: Option<string>, n: nat, lines: seq<string>): (out: Result<Reader, Failure>)
    requires Consistent(r)
    ensures out.Ok? ==> Consistent(out.value)
    decreases |lines|
  {
    if lines == [] then Ok(r)
    else
      StepFollowsTable(r, filename, n, lines[0]);
      match Step(r, filename, n, lines[0])
      case Err(e) => Err(e)
      case Ok(r') => Run(r', filename, n + 1, lines[1..])
  }

  /** The end of the file: the last message is flushed, then a file that
      stops inside a message is an error without a line number. */
  function Finish(r: Reader, filename: Option<string>): (out: Result<Po.PoFile, Failure>)
    requires Consistent(r)
    ensures out.Ok? ==> Po.Valid(out.value)
    ensures out.Ok? <==> Flush(r).Ok? && r.state !in {AfterMsgCtxt, AfterMsgId, AfterMsgIdPlural}
  {
    var f :- Flush(r);
    if r.state in {AfterMsgCtxt, AfterMsgId, AfterMsgIdPlural} then
      Err(Parse(ParseError(filename, None, UnexpectedEndOfFile)))
    else Ok(f.doc)
  }

  /** Reads the lines of a file into `doc`. */
  function ParseInto(doc: Po.PoFile, filename: Option<string>, lines: seq<string>): (out: Result<Po.PoFile, Failure>)
    requires Po.Valid(doc)
    ensures out.Ok? ==> Po.Valid(out.value)
  {
    var r :- Run(Fresh(doc), filename, 0, lines);
    Finish(r, filename)
  }

  /** Reads a file into a fresh document and returns its catalog. */
  function ParseCatalog(filename: Option<string>, lines: seq<string>): Result<Po.Catalog, Failure> {
    var d :- ParseInto(Po.Empty(), filename, lines);
    Ok(Po.GetCatalog(d))
  }

  // ---- Properties of the fold ----

  /** Reading `a + b` is reading `a`, then `b` from where `a` stopped, with
      the line numbers running on. */
  lemma {:induction false} RunAppend(r: Reader, filename: Option<string>, n: nat, a: seq<string>, b: seq<string>)
    requires Consistent(r)
    ensures Run(r, filename, n, a + b) ==
      match Run(r, filename, n, a)
      case Err(e) => Err(e)
      case Ok(r') => Run(r', filename, n + |a|, b)
    decreases |a|
  {
    if a == [] {
      assert a + b == b;
    } else {
      assert (a + b)[0] == a[0];
      assert (a + b)[1..] == a[1..] + b;
      StepFollowsTable(r, filename, n, a[0]);
      match Step(r, filename, n, a[0])
      case Err(e) =>
      case Ok(r') => RunAppend(r', filename, n + 1, a[1..], b);
    }
  }

  /** Blank and comment lines change nothing. */
  lemma {:induction false} RunIgnored(r: Reader, filename: Option<string>, n: nat, lines: seq<string>)
    requires Consistent(r)
    requires forall i :: 0 <= i < |lines| ==> Classify(lines[i]) == Ignored
    ensures Run(r, filename, n, lines) == Ok(r)
    decreases |lines|
  {
    if lines != [] {
      assert Classify(lines[0]) == Ignored;
      RunIgnored(r, filename, n + 1, lines[1..]);
    }
  }

  /** A file of blank and comment lines has an empty catalog. */
  lemma {:induction false} IgnoredFileIsEmpty(filename: Option<string>, lines: seq<string>)
    requires forall i :: 0 <= i < |lines| ==> Classify(lines[i]) == Ignored
    ensures ParseCatalog(filename, lines) == Ok(map[])
  {
    RunIgnored(Fresh(Po.Empty()), filename, 0, lines);
  }

  /** The first line off the grammar is reported with its own number, when
      the lines before it are read without failure. */
  lemma {:induction false} FirstSyntaxError(r: Reader, filename: Option<string>, lines: seq<string>, k: nat)
    requires Consistent(r)
    requires k < |lines| && Classify(lines[k]) == SyntaxError
    requires Run(r, filename, 0, lines[..k]).Ok?
    ensures Run(r, filename, 0, lines) == Err(Parse(ParseError(filename, Some(k), InvalidSyntax(lines[k]))))
  {
    var r' := Run(r, filename, 0, lines[..k]).value;
    assert lines == lines[..k] + lines[k..];
    RunAppend(r, filename, 0, lines[..k], lines[k..]);
    assert lines[k..][0] == lines[k];
  }

  /** A file that stops after `msgctxt`, `msgid` or `msgid_plural` is an
      error without a line number, whatever blank or comment lines follow
      (unless the unfinished message is the header, whose flush fails
      first). */
  lemma {:induction false} EndInsideMessage(r: Reader, filename: Option<string>, n: nat, tail: seq<string>)
    requires Consistent(r) && r.state in {AfterMsgCtxt, AfterMsgId, AfterMsgIdPlural}
    requires r.pending.message != Some([])
    requires forall i :: 0 <= i < |tail| ==> Classify(tail[i]) == Ignored
    ensures Run(r, filename, n, tail).Ok?
    ensures Finish(Run(r, filename, n, tail).value, filename) == Err(Parse(ParseError(filename, None, UnexpectedEndOfFile)))
  {
    RunIgnored(r, filename, n, tail);
  }

  /** The header block that ends in indexed translations cannot be
      flushed. */
  lemma {:induction false} HeaderWithPluralsCrashes(r: Reader)
    requires Consistent(r) && r.state == AfterMsgStrN && r.pending.message == Some([])
    ensures Flush(r) == Err(Crashed(HeaderWithoutTranslation))
  {
  }

  /** A repeated index within one message is an error at its line. */
  lemma {:induction false} DuplicateIndex(r: Reader, filename: Option<string>, n: nat, i: nat, raw: string)
    requires Consistent(r) && r.state == AfterMsgStrN && i in r.pending.plurals
    ensures StepKeyword(r, filename, n, MsgStr, Some(i), raw) == Fail(filename, n, DuplicatePluralIndex(i))
  {
  }

  /** Flushing forgets the indices seen, so the next message may use them
      again. */
  lemma {:induction false} IndicesResetAtFlush(r: Reader)
    requires Consistent(r) && Flush(r).Ok?
    ensures Flush(r).value.pending.plurals == map[]
  {
  }

  // ---- Rendering an error ----

  /** What `str()` of an unescaping error gives. */
  function EscapeMessage(e: Strings.UnescapeError): string {
    match e
    case InvalidEscape(Some(c)) => "Invalid escape sequence: \\" + [c]
    case InvalidEscape(None) => "Invalid escape sequence: \\None"
    case NotAChar(code) => "chr() arg not in range(0x110000)"
  }

  /** The message of an error kind; an unescaping error is carried as the
      exception itself, not as its text. */
  datatype Message = Text(text: string) | Exception(escape: Strings.UnescapeError)

  /** The text of each error; for a syntax error it lacks the line feed
      that ends the code's message, since lines are read without it. */
  function KindMessage(k: ErrorKind): Message {
    match k
    case InvalidSyntax(t) => Text("Invalid syntax: " + t)
    case UnexpectedPluralIndex => Text("Unexpected plural message index after keyword")
    case MissingPluralIndex => Text("Missing plural message index after keyword")
    case DuplicatePluralIndex(i) => Text("Duplicate plural message index: " + NatToString(i))
    case UnexpectedContinuation(s) => Text("Unexpected string continuation after '" + StateName(s) + "'")
    case UnexpectedKeyword(kw) => Text("Unexpected keyword: " + KeywordText(kw))
    case BadEscape(e) => Exception(e)
    case UnexpectedEndOfFile => Text("Unexpected end of file")
  }

  function MessageText(m: Message): string {
    match m
    case Text(t) => t
    case Exception(e) => EscapeMessage(e)
  }

  /** `str()` of an error built from a file name, a line number and a
      message. File name and line number are shown only when truthy, so an
      empty file name and line 0 count as absent. With neither, the message
      itself is returned, which for an escape error is not a string and
      makes `str()` fail (None here). */
  function Str(filename: Option<string>, line: Option<nat>, m: Message): (r: Option<string>)
    ensures r.None? <==> (filename.None? || filename.value == []) && (line.None? || line.value == 0) && m.Exception?
    ensures r.Some? ==> EndsWith(r.value, MessageText(m))
  {
    var text := MessageText(m);
    var r :=
      if filename.Some? && filename.value != [] && line.Some? && line.value != 0 then
        Some(filename.value + ":" + NatToString(line.value) + ": " + text)
      else if filename.Some? && filename.value != [] then
        Some(filename.value + ": " + text)
      else if line.Some? && line.value != 0 then
        Some("line " + NatToString(line.value) + ": " + text)
      else if m.Text? then Some(m.text)
      else None;
    assert r.Some? ==> r.value[|r.value| - |text|..] == text;
    r
  }

  function Render(e: ParseError): Option<string> {
    Str(e.filename, e.line, KindMessage(e.kind))
  }

  /** Line 0 renders as if there were no line number, and the empty file
      name as if there were no file name. */
  lemma {:induction false} FalsyPartsHidden(filename: Option<string>, line: Option<nat>, m: Message)
    ensures Str(filename, Some(0), m) == Str(filename, None, m)
    ensures Str(Some([]), line, m) == Str(None, line, m)
  {
  }

  /** The four shapes of the message, on the reader's own examples. */
  lemma {:induction false} StrWithNameAndLine()
    ensures Str(Some("filename.po"), Some(42), Text("the error message")) == Some("filename.po:42: the error message")
  {
    assert NatToString(42) == "42";
    assert "filename.po" + ":" + "42" + ": " + "the error message" == "filename.po:42: the error message";
  }

  lemma {:induction false} StrWithName()
    ensures Str(Some("filename.po"), None, Text("unexpected end of file")) == Some("filename.po: unexpected end of file")
  {
    assert "filename.po" + ": " + "unexpected end of file" == "filename.po: unexpected end of file";
  }

  lemma {:induction false} StrWithLine()
    ensures Str(None, Some(42), Text("the error message")) == Some("line 42: the error message")
  {
    assert NatToString(42) == "42";
    assert "line " + "42" + ": " + "the error message" == "line 42: the error message";
  }

  lemma {:induction false} StrBare()
    ensures Str(None, None, Text("the error message")) == Some("the error message")
  {
  }
}
