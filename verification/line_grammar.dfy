/** The line grammar of the catalog file reader: each line is blank or a
    comment (ignored), a keyword with an optional plural index and a quoted
    string, a quoted continuation string, or off the grammar. Whitespace
    and digits are ASCII. The classifier works on positions in the line, so
    that the only text it cuts out is the quoted string itself. */
module LineGrammar {
  import opened Wrappers
  import opened Text

  datatype Keyword = MsgCtxt | MsgId | MsgIdPlural | MsgStr

  /** `raw` is the text between the first and the last quote, not yet
      unescaped. */
  datatype LineKind =
    | Ignored
    | KeywordLine(kw: Keyword, index: Option<nat>, raw: string)
    | Continuation(raw: string)
    | SyntaxError

  function KeywordText(kw: Keyword): string {
    match kw
    case MsgCtxt => "msgctxt"
    case MsgId => "msgid"
    case MsgIdPlural => "msgid_plural"
    case MsgStr => "msgstr"
  }

  function IndexText(index: Option<nat>): string {
    match index
    case None => ""
    case Some(n) => "[" + NatToString(n) + "]"
  }

  /** `w` occurs in `line` at position `i`. */
  predicate TextAt(line: string, i: nat, w: string) {
    i + |w| <= |line| && forall x :: 0 <= x < |w| ==> line[i + x] == w[x]
  }

  /** The keyword's text appears at position `i`. */
  predicate KeywordAt(line: string, i: nat, kw: Keyword) {
    TextAt(line, i, KeywordText(kw))
  }

  /** Length of the run of decimal digits of `s` starting at `from`. */
  function DigitRun(s: string, from: nat): (n: nat)
    requires from <= |s|
    ensures from + n <= |s|
    ensures from + n < |s| ==> !IsDigit(s[from + n])
    decreases |s| - from
  {
    if from == |s| || !IsDigit(s[from]) then 0
    else 1 + DigitRun(s, from + 1)
  }

  /** Everything in a digit run is a digit. */
  lemma {:induction false} DigitRunAll(s: string, from: nat)
    requires from <= |s|
    ensures forall i :: from <= i < from + DigitRun(s, from) ==> IsDigit(s[i])
    decreases |s| - from
  {
    if from < |s| && IsDigit(s[from]) {
      DigitRunAll(s, from + 1);
    }
  }

  /** Value of the decimal digits of `line` from `a` up to `b`. */
  function DigitsAt(line: string, a: nat, b: nat): nat
    requires a <= b <= |line|
    requires forall x :: a <= x < b ==> IsDigit(line[x])
    decreases b
  {
    if b == a then 0
    else
      assert IsDigit(line[b - 1]);
      DigitsAt(line, a, b - 1) * 10 + (line[b - 1] as int - 48)
  }

  /** Index just past the last non-blank character of the line. */
  function LineEnd(line: string): nat {
    TrimEnd(line, |line|)
  }

  /** The last non-blank character of the line is a quote. */
  predicate EndsQuote(line: string) {
    LineEnd(line) > 0 && line[LineEnd(line) - 1] == '"'
  }

  /** The quoted string that opens at `q` and closes with the last
      non-blank character of the line (the pattern's greedy `"(.*)"`
      followed by nothing but whitespace). */
  function QuotedAt(line: string, q: nat): (r: Option<string>)
    requires q <= |line|
    ensures r.Some? ==> EndsQuote(line) && q + |r.value| + 2 == LineEnd(line)
    ensures r.Some? ==> line[q] == '"' && line[q + 1..LineEnd(line) - 1] == r.value
  {
    var e := LineEnd(line);
    if q + 2 <= e && line[q] == '"' && line[e - 1] == '"' then Some(line[q + 1..e - 1]) else None
  }

  /** After a keyword (and index) ending at `k`: optional whitespace, then
      the quoted string. */
  function StringAfter(line: string, k: nat, kw: Keyword, index: Option<nat>): LineKind
    requires k <= |line|
  {
    match QuotedAt(line, k + SpaceRun(line, k))
    case Some(raw) => KeywordLine(kw, index, raw)
    case None => SyntaxError
  }

  /** What may follow `msgctxt`, `msgid` or `msgid_plural`, from `j` on: no
      index, then the string. */
  function AfterKeyword(line: string, kw: Keyword, j: nat): LineKind
    requires j <= |line|
  {
    if j < |line| && line[j] == '[' then SyntaxError
    else StringAfter(line, j, kw, None)
  }

  /** What may follow `msgstr`, from `j` on: an optional bracketed run of
      digits, then the string. */
  function AfterMsgStr(line: string, j: nat): LineKind
    requires j <= |line|
  {
    if j < |line| && line[j] == '[' then
      var n := DigitRun(line, j + 1);
      if n >= 1 && j + n + 1 < |line| && line[j + n + 1] == ']' then
        DigitRunAll(line, j + 1);
        StringAfter(line, j + n + 2, MsgStr, Some(DigitsAt(line, j + 1, j + n + 1)))
      else SyntaxError
    else StringAfter(line, j, MsgStr, None)
  }

  /** Characters that can continue a keyword: anything but blanks, `[`
      and quotes. */
  predicate IsWordChar(c: char) {
    !IsSpace(c) && c != '[' && c != '"'
  }

  /** Length of the run of word characters of `s` starting at `from`. */
  function WordRun(s: string, from: nat): (n: nat)
    requires from <= |s|
    ensures from + n <= |s|
    ensures from + n < |s| ==> !IsWordChar(s[from + n])
    decreases |s| - from
  {
    if from == |s| || !IsWordChar(s[from]) then 0
    else 1 + WordRun(s, from + 1)
  }

  /** The keyword spelled by the word from `i` up to `j`, if any. The four
      keywords have four different lengths. */
  function KeywordFrom(line: string, i: nat, j: nat): (r: Option<Keyword>)
    requires i <= j <= |line|
    ensures r.Some? ==> KeywordAt(line, i, r.value) && j == i + |KeywordText(r.value)|
    ensures forall kw :: KeywordAt(line, i, kw) && j == i + |KeywordText(kw)| ==> r == Some(kw)
  {
    if j - i == 7 && KeywordAt(line, i, MsgCtxt) then Some(MsgCtxt)
    else if j - i == 12 && KeywordAt(line, i, MsgIdPlural) then Some(MsgIdPlural)
    else if j - i == 5 && KeywordAt(line, i, MsgId) then Some(MsgId)
    else if j - i == 6 && KeywordAt(line, i, MsgStr) then Some(MsgStr)
    else None
  }

  /** Classifies a line from its first non-blank character at `i`. A
      keyword must be followed by a blank, `[` or a quote, so the keyword
      alternatives of the pattern amount to reading the word at `i`. */
  function ClassifyAt(line: string, i: nat): LineKind
    requires i <= |line|
  {
    if i == |line| || line[i] == '#' then Ignored
    else if line[i] == '"' then
      match QuotedAt(line, i)
      case Some(raw) => Continuation(raw)
      case None => SyntaxError
    else
      var j := i + WordRun(line, i);
      match KeywordFrom(line, i, j)
      case Some(kw) => if kw == MsgStr then AfterMsgStr(line, j) else AfterKeyword(line, kw, j)
      case None => SyntaxError
  }

  /** Classifies one line (without its terminator). */
  function Classify(line: string): LineKind {
    ClassifyAt(line, SpaceRun(line, 0))
  }

  // ---- What an accepted line looks like ----

  /** The text of `raw` sits between a quote and the quote that is the
      last non-blank character of the line. */
  predicate QuotedTail(line: string, raw: string) {
    var e := LineEnd(line);
    EndsQuote(line) && |raw| + 2 <= e && line[e - |raw| - 2] == '"' && line[e - |raw| - 1..e - 1] == raw
  }

  lemma {:induction false} StringAfterTail(line: string, k: nat, kw: Keyword, index: Option<nat>)
    requires k <= |line| && StringAfter(line, k, kw, index).KeywordLine?
    ensures QuotedTail(line, StringAfter(line, k, kw, index).raw)
    ensures StringAfter(line, k, kw, index).kw == kw && StringAfter(line, k, kw, index).index == index
  {
  }

  lemma {:induction false} AfterKeywordTail(line: string, kw: Keyword, j: nat)
    requires j <= |line| && AfterKeyword(line, kw, j).KeywordLine?
    ensures QuotedTail(line, AfterKeyword(line, kw, j).raw)
    ensures AfterKeyword(line, kw, j).kw == kw && AfterKeyword(line, kw, j).index.None?
  {
    StringAfterTail(line, j, kw, None);
  }

  lemma {:induction false} AfterMsgStrTail(line: string, j: nat)
    requires j <= |line| && AfterMsgStr(line, j).KeywordLine?
    ensures QuotedTail(line, AfterMsgStr(line, j).raw) && AfterMsgStr(line, j).kw == MsgStr
  {
    if j < |line| && line[j] == '[' {
      var n := DigitRun(line, j + 1);
      DigitRunAll(line, j + 1);
      StringAfterTail(line, j + n + 2, MsgStr, Some(DigitsAt(line, j + 1, j + n + 1)));
    } else {
      StringAfterTail(line, j, MsgStr, None);
    }
  }

  /** A keyword line starts, after blanks, with its keyword, only `msgstr`
      carries an index, and the string is what lies between a quote and
      the quote that ends the line. */
  lemma {:induction false} KeywordSound(line: string)
    requires Classify(line).KeywordLine?
    ensures KeywordAt(line, SpaceRun(line, 0), Classify(line).kw)
    ensures Classify(line).index.Some? ==> Classify(line).kw == MsgStr
    ensures QuotedTail(line, Classify(line).raw)
  {
    var i := SpaceRun(line, 0);
    var j := i + WordRun(line, i);
    var w := KeywordFrom(line, i, j);
    if w.value == MsgStr {
      AfterMsgStrTail(line, j);
    } else {
      AfterKeywordTail(line, w.value, j);
    }
  }

  /** A continuation line is a quoted string and nothing else. */
  lemma {:induction false} ContinuationSound(line: string)
    requires Classify(line).Continuation?
    ensures QuotedTail(line, Classify(line).raw)
    ensures SpaceRun(line, 0) + |Classify(line).raw| + 2 == LineEnd(line)
  {
  }

  /** Every accepted string or keyword line ends with a quote. */
  lemma {:induction false} ClassifyEnds(line: string)
    requires Classify(line).KeywordLine? || Classify(line).Continuation?
    ensures EndsQuote(line)
  {
    if Classify(line).KeywordLine? {
      KeywordSound(line);
    } else {
      ContinuationSound(line);
    }
  }

  /** Every keyword starts with `m` and is made of word characters. */
  lemma {:induction false} KeywordChars(kw: Keyword)
    ensures KeywordText(kw)[0] == 'm'
    ensures forall t :: 0 <= t < |KeywordText(kw)| ==> IsWordChar(KeywordText(kw)[t])
  {
  }

  /** A line whose first non-blank text is a keyword is decided by what
      follows the keyword, provided that starts with a blank, `[`, a quote
      or the end of the line. */
  lemma {:induction false} Dispatch(line: string, i: nat, kw: Keyword)
    requires i < |line| && KeywordAt(line, i, kw)
    requires i + |KeywordText(kw)| < |line| ==> !IsWordChar(line[i + |KeywordText(kw)|])
    ensures ClassifyAt(line, i) ==
      if kw == MsgStr then AfterMsgStr(line, i + 6) else AfterKeyword(line, kw, i + |KeywordText(kw)|)
  {
    var w := KeywordText(kw);
    KeywordChars(kw);
    forall x | i <= x < i + |w|
      ensures IsWordChar(line[x])
    {
      assert line[i + (x - i)] == w[x - i];
    }
    WordRunStops(line, i, i + |w|);
    assert line[i + 0] == w[0];
  }

  /** A word run is determined by where it stops. */
  lemma {:induction false} WordRunStops(s: string, from: nat, stop: nat)
    requires from <= stop <= |s|
    requires forall i :: from <= i < stop ==> IsWordChar(s[i])
    requires stop < |s| ==> !IsWordChar(s[stop])
    ensures WordRun(s, from) == stop - from
    decreases |s| - from
  {
    if from < stop {
      WordRunStops(s, from + 1, stop);
    }
  }

  // ---- The grammar accepts every well-formed line ----

  /** A quoted string: its content between two quotes. */
  function Quote(raw: string): (q: string)
    ensures |q| == |raw| + 2 && q[0] == '"' && q[|q| - 1] == '"' && q[1..|q| - 1] == raw
  {
    "\"" + raw + "\""
  }

  /** Renders a keyword line: leading whitespace, the keyword, the index
      (only ever on `msgstr`), a gap, the quoted string, trailing space. */
  function RenderKeyword(lead: string, kw: Keyword, index: Option<nat>, gap: string, raw: string, trail: string): string {
    Concat([lead, KeywordText(kw), IndexText(index), gap, Quote(raw), trail])
  }

  /** The parts of a line, one after the other. */
  function Concat(parts: seq<string>): string
    decreases |parts|
  {
    if parts == [] then [] else Concat(parts[..|parts| - 1]) + parts[|parts| - 1]
  }

  lemma {:induction false} ConcatSnoc(parts: seq<string>, p: string)
    ensures Concat(parts + [p]) == Concat(parts) + p
  {
    assert (parts + [p])[..|parts|] == parts;
  }

  /** A rendered keyword line, written out as its six parts. */
  lemma {:induction false} RenderParts(lead: string, kw: Keyword, index: Option<nat>, gap: string, raw: string, trail: string)
    ensures RenderKeyword(lead, kw, index, gap, raw, trail) ==
      lead + KeywordText(kw) + IndexText(index) + gap + Quote(raw) + trail
  {
    var w, ix, q := KeywordText(kw), IndexText(index), Quote(raw);
    ConcatSnoc([], lead);
    assert [] + [lead] == [lead];
    assert [] + lead == lead;
    ConcatSnoc([lead], w);
    assert [lead] + [w] == [lead, w];
    ConcatSnoc([lead, w], ix);
    assert [lead, w] + [ix] == [lead, w, ix];
    ConcatSnoc([lead, w, ix], gap);
    assert [lead, w, ix] + [gap] == [lead, w, ix, gap];
    ConcatSnoc([lead, w, ix, gap], q);
    assert [lead, w, ix, gap] + [q] == [lead, w, ix, gap, q];
    ConcatSnoc([lead, w, ix, gap, q], trail);
    assert [lead, w, ix, gap, q] + [trail] == [lead, w, ix, gap, q, trail];
  }

  /** From `q` on, the line is `raw` between quotes, and the closing quote
      is its last non-blank character. */
  predicate QuoteEndsAt(line: string, q: nat, raw: string) {
    q + |raw| + 2 <= |line| && line[q] == '"' && TextAt(line, q + 1, raw) && line[q + |raw| + 1] == '"' &&
    LineEnd(line) == q + |raw| + 2
  }

  /** `[`, the decimal rendering of `n` and `]` start at position `j`. */
  predicate IndexAt(line: string, j: nat, n: nat) {
    var d := NatToString(n);
    j + |d| + 2 <= |line| && line[j] == '[' && TextAt(line, j + 1, d) && line[j + |d| + 1] == ']'
  }

  /** Exactly the blanks from `k` up to `q`. */
  predicate GapAt(line: string, k: nat, q: nat) {
    k <= q <= |line| && SpaceRun(line, k) == q - k
  }

  lemma {:induction false} QuotedAtOf(line: string, q: nat, raw: string)
    requires QuoteEndsAt(line, q, raw)
    ensures QuotedAt(line, q) == Some(raw)
  {
    forall x | 0 <= x < |raw|
      ensures line[q + 1..q + |raw| + 1][x] == raw[x]
    {
      assert line[q + 1 + x] == raw[x];
    }
    assert line[q + 1..q + |raw| + 1] == raw;
  }

  /** After position `k`, blanks up to a quoted string that ends the line. */
  lemma {:induction false} StringAfterOf(line: string, k: nat, q: nat, raw: string, kw: Keyword, index: Option<nat>)
    requires GapAt(line, k, q) && QuoteEndsAt(line, q, raw)
    ensures StringAfter(line, k, kw, index) == KeywordLine(kw, index, raw)
  {
    QuotedAtOf(line, q, raw);
  }

  /** A keyword followed by a gap and a quoted string. */
  lemma {:induction false} AfterKeywordOf(line: string, kw: Keyword, j: nat, q: nat, raw: string)
    requires GapAt(line, j, q) && QuoteEndsAt(line, q, raw)
    ensures j < |line| && (line[j] == '"' || IsSpace(line[j]))
    ensures AfterKeyword(line, kw, j) == KeywordLine(kw, None, raw)
    ensures AfterMsgStr(line, j) == KeywordLine(MsgStr, None, raw)
  {
    assert line[j] == '"' || IsSpace(line[j]);
    StringAfterOf(line, j, q, raw, kw, None);
    StringAfterOf(line, j, q, raw, MsgStr, None);
  }

  /** The digits of `d`, found at `a`, have the value of `d`. */
  lemma {:induction false} DigitsAtOf(line: string, a: nat, d: string)
    requires TextAt(line, a, d)
    requires forall x :: 0 <= x < |d| ==> IsDigit(d[x])
    requires forall x :: a <= x < a + |d| ==> IsDigit(line[x])
    ensures DigitsAt(line, a, a + |d|) == DigitsValue(d)
    decreases |d|
  {
    if d != [] {
      var d' := d[..|d| - 1];
      assert TextAt(line, a, d') by {
        forall x | 0 <= x < |d'|
          ensures line[a + x] == d'[x]
        {
          assert d'[x] == d[x];
        }
      }
      DigitsAtOf(line, a, d');
      assert line[a + (|d| - 1)] == d[|d| - 1];
    }
  }

  /** `msgstr` followed by a bracketed digit run, a gap and a string. */
  lemma {:induction false} AfterMsgStrIndexOf(line: string, j: nat, n: nat, q: nat, raw: string)
    requires IndexAt(line, j, n)
    requires GapAt(line, j + |NatToString(n)| + 2, q) && QuoteEndsAt(line, q, raw)
    ensures AfterMsgStr(line, j) == KeywordLine(MsgStr, Some(n), raw)
  {
    var d := NatToString(n);
    var m := |d|;
    forall x | j + 1 <= x < j + m + 1
      ensures IsDigit(line[x])
    {
      assert line[j + 1 + (x - j - 1)] == d[x - j - 1];
    }
    DigitRunStops(line, j + 1, j + m + 1);
    DigitsAtOf(line, j + 1, d);
    DigitsRoundTrip(n);
    StringAfterOf(line, j + m + 2, q, raw, MsgStr, Some(n));
  }

  /** A digit run is determined by where it stops. */
  lemma {:induction false} DigitRunStops(s: string, from: nat, stop: nat)
    requires from <= stop <= |s|
    requires forall i :: from <= i < stop ==> IsDigit(s[i])
    requires stop < |s| ==> !IsDigit(s[stop])
    ensures DigitRun(s, from) == stop - from
    decreases |s| - from
  {
    if from < stop {
      DigitRunStops(s, from + 1, stop);
    }
  }

  /** `Dispatch`, for the keyword that starts the line. */
  lemma {:induction false} ClassifyDispatch(line: string, i: nat, kw: Keyword)
    requires SpaceRun(line, 0) == i && i < |line| && KeywordAt(line, i, kw)
    requires i + |KeywordText(kw)| < |line| ==> !IsWordChar(line[i + |KeywordText(kw)|])
    ensures Classify(line) ==
      if kw == MsgStr then AfterMsgStr(line, i + 6) else AfterKeyword(line, kw, i + |KeywordText(kw)|)
  {
    Dispatch(line, i, kw);
  }

  /** The quoted string and trailing blanks after a prefix `p`. */
  lemma {:induction false} QuoteFacts(p: string, raw: string, trail: string)
    requires AllSpace(trail)
    ensures QuoteEndsAt(p + Quote(raw) + trail, |p|, raw)
  {
    var line := p + Quote(raw) + trail;
    var e := |p| + |raw| + 2;
    forall x | 0 <= x < |raw|
      ensures line[|p| + 1 + x] == raw[x]
    {
      assert Quote(raw)[1 + x] == raw[x];
    }
    forall x | e <= x < |line|
      ensures IsSpace(line[x])
    {
      assert line[x] == trail[x - e];
    }
    TrimEndStops(line, e, |line|);
  }

  /** The leading blanks of a rendered keyword line. */
  lemma {:induction false} RenderLead(lead: string, kw: Keyword, index: Option<nat>, gap: string, raw: string, trail: string)
    requires AllSpace(lead)
    ensures SpaceRun(RenderKeyword(lead, kw, index, gap, raw, trail), 0) == |lead|
  {
    var line := RenderKeyword(lead, kw, index, gap, raw, trail);
    RenderParts(lead, kw, index, gap, raw, trail);
    forall x | 0 <= x < |lead|
      ensures IsSpace(line[x])
    {
      assert line[x] == lead[x];
    }
    KeywordChars(kw);
    assert line[|lead|] == KeywordText(kw)[0];
    SpaceRunStops(line, 0, |lead|);
  }

  /** The keyword of a rendered keyword line. */
  lemma {:induction false} RenderKeywordAt(lead: string, kw: Keyword, index: Option<nat>, gap: string, raw: string, trail: string)
    ensures KeywordAt(RenderKeyword(lead, kw, index, gap, raw, trail), |lead|, kw)
  {
    var line := RenderKeyword(lead, kw, index, gap, raw, trail);
    RenderParts(lead, kw, index, gap, raw, trail);
    var w := KeywordText(kw);
    forall x | 0 <= x < |w|
      ensures line[|lead| + x] == w[x]
    {
    }
  }

  /** The index of a rendered `msgstr` line. */
  lemma {:induction false} RenderIndexAt(lead: string, kw: Keyword, n: nat, gap: string, raw: string, trail: string)
    ensures IndexAt(RenderKeyword(lead, kw, Some(n), gap, raw, trail), |lead| + |KeywordText(kw)|, n)
  {
    var line := RenderKeyword(lead, kw, Some(n), gap, raw, trail);
    RenderParts(lead, kw, Some(n), gap, raw, trail);
    var ix := IndexText(Some(n));
    var d := NatToString(n);
    var j := |lead| + |KeywordText(kw)|;
    assert ix == "[" + d + "]";
    assert line[j] == ix[0];
    forall x | 0 <= x < |d|
      ensures line[j + 1 + x] == d[x]
    {
      assert line[j + 1 + x] == ix[1 + x];
    }
    assert line[j + |d| + 1] == ix[|d| + 1];
  }

  /** The blanks between the keyword (and index) and the string. */
  lemma {:induction false} RenderGap(lead: string, kw: Keyword, index: Option<nat>, gap: string, raw: string, trail: string)
    requires AllSpace(gap)
    ensures var k := |lead| + |KeywordText(kw)| + |IndexText(index)|;
      GapAt(RenderKeyword(lead, kw, index, gap, raw, trail), k, k + |gap|)
  {
    var line := RenderKeyword(lead, kw, index, gap, raw, trail);
    RenderParts(lead, kw, index, gap, raw, trail);
    var k := |lead| + |KeywordText(kw)| + |IndexText(index)|;
    forall x | k <= x < k + |gap|
      ensures IsSpace(line[x])
    {
      assert line[x] == gap[x - k];
    }
    assert line[k + |gap|] == Quote(raw)[0];
    SpaceRunStops(line, k, k + |gap|);
  }

  /** The string and trailing blanks of a rendered keyword line. */
  lemma {:induction false} RenderQuote(lead: string, kw: Keyword, index: Option<nat>, gap: string, raw: string, trail: string)
    requires AllSpace(trail)
    ensures var k := |lead| + |KeywordText(kw)| + |IndexText(index)|;
      QuoteEndsAt(RenderKeyword(lead, kw, index, gap, raw, trail), k + |gap|, raw)
  {
    RenderParts(lead, kw, index, gap, raw, trail);
    QuoteFacts(lead + KeywordText(kw) + IndexText(index) + gap, raw, trail);
  }

  /** Inverse law of the classifier on keyword lines: a rendered keyword
      line classifies as that keyword, index and string. */
  lemma {:induction false} ClassifyKeyword(lead: string, kw: Keyword, index: Option<nat>, gap: string, raw: string, trail: string)
    requires AllSpace(lead) && AllSpace(gap) && AllSpace(trail)
    requires index.Some? ==> kw == MsgStr
    ensures Classify(RenderKeyword(lead, kw, index, gap, raw, trail)) == KeywordLine(kw, index, raw)
  {
    RenderLead(lead, kw, index, gap, raw, trail);
    RenderKeywordAt(lead, kw, index, gap, raw, trail);
    if index.Some? {
      RenderTailIndexed(lead, index.value, gap, raw, trail);
    } else {
      RenderTailPlain(lead, kw, gap, raw, trail);
    }
    ClassifyDispatch(RenderKeyword(lead, kw, index, gap, raw, trail), |lead|, kw);
  }

  /** What follows the keyword of a rendered line without an index. */
  lemma {:induction false} RenderTailPlain(lead: string, kw: Keyword, gap: string, raw: string, trail: string)
    requires AllSpace(gap) && AllSpace(trail)
    ensures var line := RenderKeyword(lead, kw, None, gap, raw, trail);
      var j := |lead| + |KeywordText(kw)|;
      j < |line| && !IsWordChar(line[j]) &&
      AfterKeyword(line, kw, j) == KeywordLine(kw, None, raw) &&
      AfterMsgStr(line, j) == KeywordLine(MsgStr, None, raw)
  {
    var j := |lead| + |KeywordText(kw)|;
    RenderGap(lead, kw, None, gap, raw, trail);
    RenderQuote(lead, kw, None, gap, raw, trail);
    AfterKeywordOf(RenderKeyword(lead, kw, None, gap, raw, trail), kw, j, j + |gap|, raw);
  }

  /** What follows `msgstr` on a rendered line with an index. */
  lemma {:induction false} RenderTailIndexed(lead: string, n: nat, gap: string, raw: string, trail: string)
    requires AllSpace(gap) && AllSpace(trail)
    ensures var line := RenderKeyword(lead, MsgStr, Some(n), gap, raw, trail);
      var j := |lead| + 6;
      j < |line| && line[j] == '[' && AfterMsgStr(line, j) == KeywordLine(MsgStr, Some(n), raw)
  {
    var k := |lead| + 6 + |IndexText(Some(n))|;
    RenderIndexAt(lead, MsgStr, n, gap, raw, trail);
    RenderGap(lead, MsgStr, Some(n), gap, raw, trail);
    RenderQuote(lead, MsgStr, Some(n), gap, raw, trail);
    AfterMsgStrIndexOf(RenderKeyword(lead, MsgStr, Some(n), gap, raw, trail), |lead| + 6, n, k + |gap|, raw);
  }

  /** Inverse law of the classifier on continuation lines. */
  lemma {:induction false} ClassifyContinuation(lead: string, raw: string, trail: string)
    requires AllSpace(lead) && AllSpace(trail)
    ensures Classify(lead + Quote(raw) + trail) == Continuation(raw)
  {
    var line := lead + Quote(raw) + trail;
    forall x | 0 <= x < |lead|
      ensures IsSpace(line[x])
    {
      assert line[x] == lead[x];
    }
    assert line[|lead|] == Quote(raw)[0];
    SpaceRunStops(line, 0, |lead|);
    QuoteFacts(lead, raw, trail);
    QuotedAtOf(line, |lead|, raw);
  }

  // ---- What the grammar rejects ----

  /** A line is ignored exactly when it is blank or its first non-blank
      character is `#`. */
  lemma {:induction false} IgnoredIff(line: string)
    ensures Classify(line) == Ignored <==> StripLeft(line) == [] || StripLeft(line)[0] == '#'
  {
    var i := SpaceRun(line, 0);
    assert StripLeft(line) == line[i..];
    if i < |line| {
      assert StripLeft(line)[0] == line[i];
    }
  }

  /** Whatever follows the closing quote must be whitespace: a line that
      is neither blank nor a comment and whose last non-blank character is
      not a quote is off the grammar (garbage at the end, an unterminated
      string, a keyword without a string). */
  lemma {:induction false} NoClosingQuote(line: string)
    requires StripLeft(line) != [] && StripLeft(line)[0] != '#'
    requires !EndsQuote(line)
    ensures Classify(line) == SyntaxError
  {
    IgnoredIff(line);
    if Classify(line).KeywordLine? || Classify(line).Continuation? {
      ClassifyEnds(line);
    }
  }

  /** `msgctxt`, `msgid` and `msgid_plural` take no index. */
  lemma {:induction false} NoIndexExceptMsgStr(lead: string, kw: Keyword, rest: string)
    requires AllSpace(lead) && kw != MsgStr
    ensures Classify(lead + KeywordText(kw) + "[" + rest) == SyntaxError
  {
    var w := KeywordText(kw);
    var line := lead + w + "[" + rest;
    forall x | 0 <= x < |lead|
      ensures IsSpace(line[x])
    {
      assert line[x] == lead[x];
    }
    KeywordChars(kw);
    assert line[|lead|] == w[0];
    SpaceRunStops(line, 0, |lead|);
    forall x | 0 <= x < |w|
      ensures line[|lead| + x] == w[x]
    {
    }
    Dispatch(line, |lead|, kw);
  }

  /** A line whose first non-blank character is neither `#` nor a quote,
      and where no keyword starts at that character, is off the grammar. */
  lemma {:induction false} UnknownKeyword(line: string)
    requires SpaceRun(line, 0) < |line|
    requires line[SpaceRun(line, 0)] != '#' && line[SpaceRun(line, 0)] != '"'
    requires forall kw :: !KeywordAt(line, SpaceRun(line, 0), kw)
    ensures Classify(line) == SyntaxError
  {
  }
}
