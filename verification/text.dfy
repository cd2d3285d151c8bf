/** Small string utilities with the semantics of the Python built-ins the
    code relies on (str.strip, str.split, str.partition, str.format of an
    int, int()).  Whitespace and digits are the ASCII ones. */
module Text {
  import opened Wrappers

  /** ASCII whitespace: space, tab, line feed, carriage return, VT, FF. */
  predicate IsSpace(c: char) {
    c == ' ' || c == '\t' || c == '\n' || c == '\r' || c == '\U{000B}' || c == '\U{000C}'
  }

  predicate AllSpace(s: string) {
    forall i :: 0 <= i < |s| ==> IsSpace(s[i])
  }

  predicate IsDigit(c: char) {
    48 <= c as int <= 57
  }

  predicate StartsWith(s: string, prefix: string) {
    |prefix| <= |s| && s[..|prefix|] == prefix
  }

  predicate EndsWith(s: string, suffix: string) {
    |suffix| <= |s| && s[|s| - |suffix|..] == suffix
  }

  /** Length of the run of whitespace of `s` starting at `from`. */
  function SpaceRun(s: string, from: nat): (n: nat)
    requires from <= |s|
    ensures from + n <= |s|
    ensures from + n < |s| ==> !IsSpace(s[from + n])
    decreases |s| - from
  {
    if from == |s| || !IsSpace(s[from]) then 0
    else 1 + SpaceRun(s, from + 1)
  }

  /** Everything in a whitespace run is whitespace. */
  lemma {:induction false} SpaceRunAll(s: string, from: nat)
    requires from <= |s|
    ensures forall i :: from <= i < from + SpaceRun(s, from) ==> IsSpace(s[i])
    decreases |s| - from
  {
    if from < |s| && IsSpace(s[from]) {
      SpaceRunAll(s, from + 1);
    }
  }

  /** `s` with its leading whitespace removed (Python `lstrip()`). */
  function StripLeft(s: string): (r: string)
    ensures |r| <= |s| && r == s[|s| - |r|..]
    ensures AllSpace(s[..|s| - |r|])
    ensures r == [] || !IsSpace(r[0])
  {
    var k := SpaceRun(s, 0);
    SpaceRunAll(s, 0);
    assert forall i :: 0 <= i < k ==> s[..k][i] == s[i];
    s[k..]
  }

  /** Index just past the last non-blank character of `s[..stop]`. */
  function TrimEnd(s: string, stop: nat): (e: nat)
    requires stop <= |s|
    ensures e <= stop
    ensures e > 0 ==> !IsSpace(s[e - 1])
  {
    if stop == 0 || !IsSpace(s[stop - 1]) then stop else TrimEnd(s, stop - 1)
  }

  /** Everything after the trimmed end is whitespace. */
  lemma {:induction false} TrimEndAll(s: string, stop: nat)
    requires stop <= |s|
    ensures forall i :: TrimEnd(s, stop) <= i < stop ==> IsSpace(s[i])
  {
    if stop > 0 && IsSpace(s[stop - 1]) {
      TrimEndAll(s, stop - 1);
    }
  }

  /** `s` with its trailing whitespace removed (Python `rstrip()`). */
  function StripRight(s: string): (r: string)
    ensures |r| <= |s| && r == s[..|r|]
    ensures AllSpace(s[|r|..])
    ensures r == [] || !IsSpace(r[|r| - 1])
  {
    var e := TrimEnd(s, |s|);
    TrimEndAll(s, |s|);
    assert forall i :: 0 <= i < |s| - e ==> s[e..][i] == s[e + i];
    s[..e]
  }

  /** A whitespace run is determined by where it stops. */
  lemma {:induction false} SpaceRunStops(s: string, from: nat, stop: nat)
    requires from <= stop <= |s|
    requires forall i :: from <= i < stop ==> IsSpace(s[i])
    requires stop < |s| ==> !IsSpace(s[stop])
    ensures SpaceRun(s, from) == stop - from
    decreases |s| - from
  {
    if from < stop {
      SpaceRunStops(s, from + 1, stop);
    }
  }

  /** Trailing whitespace is determined by where it starts. */
  lemma {:induction false} TrimEndStops(s: string, e: nat, stop: nat)
    requires e <= stop <= |s|
    requires forall i :: e <= i < stop ==> IsSpace(s[i])
    requires e > 0 ==> !IsSpace(s[e - 1])
    ensures TrimEnd(s, stop) == e
    decreases stop
  {
    if e < stop {
      TrimEndStops(s, e, stop - 1);
    }
  }

  /** Python `strip()`. */
  function Strip(s: string): string {
    StripRight(StripLeft(s))
  }

  /** Text that neither starts nor ends with whitespace is its own strip. */
  lemma {:induction false} StripUnchanged(s: string)
    requires s != [] ==> !IsSpace(s[0]) && !IsSpace(s[|s| - 1])
    ensures Strip(s) == s
  {
    assert SpaceRun(s, 0) == 0;
    assert s[0..] == s;
    assert TrimEnd(s, |s|) == |s|;
    assert s[..|s|] == s;
  }

  /** Index of the first occurrence of `c` in `s`, if any. */
  function IndexOf(s: string, c: char): (r: Option<nat>)
    ensures r.None? <==> c !in s
    ensures r.Some? ==> r.value < |s| && s[r.value] == c && c !in s[..r.value]
  {
    if s == [] then None
    else if s[0] == c then Some(0)
    else
      match IndexOf(s[1..], c)
      case None => None
      case Some(i) =>
        assert s[..i + 1] == [s[0]] + s[1..][..i];
        Some(i + 1)
  }

  /** Python `s.split(sep)` for a one-character separator. */
  function Split(s: string, sep: char): (r: seq<string>)
    ensures |r| >= 1
    ensures forall i :: 0 <= i < |r| ==> sep !in r[i]
    decreases |s|
  {
    match IndexOf(s, sep)
    case None => [s]
    case Some(i) => [s[..i]] + Split(s[i + 1..], sep)
  }

  /** Splitting at the first separator gives the text before it, then the
      pieces of the rest. */
  lemma {:induction false} SplitAt(a: string, b: string, sep: char)
    requires sep !in a
    ensures Split(a + [sep] + b, sep) == [a] + Split(b, sep)
  {
    var s := a + [sep] + b;
    assert s[|a|] == sep;
    var i := IndexOf(s, sep).value;
    assert forall k :: 0 <= k < |a| ==> s[k] == a[k];
    assert forall k :: 0 <= k < i ==> s[..i][k] == s[k];
    assert s[..|a|] == a && s[|a| + 1..] == b;
  }

  /** Joins `parts` with `sep` between consecutive parts. */
  function Join(parts: seq<string>, sep: string): string {
    if parts == [] then []
    else if |parts| == 1 then parts[0]
    else parts[0] + sep + Join(parts[1..], sep)
  }

  /** Python `s.partition(sep)`: text before the first `sep` and text after
      it, or `(s, "")` when `sep` does not occur. */
  function Partition(s: string, sep: char): (r: (string, string))
    ensures sep !in r.0
    ensures sep in s ==> s == r.0 + [sep] + r.1
    ensures sep !in s ==> r == (s, [])
  {
    match IndexOf(s, sep)
    case None => (s, [])
    case Some(i) =>
      assert s == s[..i] + [sep] + s[i + 1..];
      (s[..i], s[i + 1..])
  }

  /** Partitioning at the first separator gives the text on either side. */
  lemma {:induction false} PartitionAt(a: string, b: string, sep: char)
    requires sep !in a
    ensures Partition(a + [sep] + b, sep) == (a, b)
  {
    var s := a + [sep] + b;
    assert s[|a|] == sep;
    var i := IndexOf(s, sep).value;
    assert forall k :: 0 <= k < |a| ==> s[k] == a[k];
    assert forall k :: 0 <= k < i ==> s[..i][k] == s[k];
    assert s[..|a|] == a && s[|a| + 1..] == b;
  }

  function DigitChar(d: nat): char
    requires d < 10
  {
    ['0', '1', '2', '3', '4', '5', '6', '7', '8', '9'][d]
  }

  /** Decimal rendering of a natural number, as `str(n)` prints it. */
  function NatToString(n: nat): (r: string)
    ensures |r| >= 1
    ensures forall i :: 0 <= i < |r| ==> IsDigit(r[i])
  {
    if n < 10 then [DigitChar(n)]
    else NatToString(n / 10) + [DigitChar(n % 10)]
  }

  function IntToString(n: int): string {
    if n < 0 then "-" + NatToString(-n) else NatToString(n)
  }

  /** Value of a non-empty run of decimal digits. */
  function DigitsValue(s: string): nat
    requires forall i :: 0 <= i < |s| ==> IsDigit(s[i])
  {
    if s == [] then 0
    else
      assert IsDigit(s[|s| - 1]);
      DigitsValue(s[..|s| - 1]) * 10 + (s[|s| - 1] as int - 48)
  }

  predicate AllDigits(s: string) {
    |s| >= 1 && forall i :: 0 <= i < |s| ==> IsDigit(s[i])
  }

  /** Python `int(s)` on an already stripped string, over ASCII: an
      optional sign and one or more ASCII decimal digits; anything else
      gives None, where Python raises ValueError (Python also accepts
      other Unicode digits and underscores between digits, which this
      does not). */
  function ParseInt(s: string): (r: Option<int>)
    ensures r.Some? <==> AllDigits(s) || (|s| >= 2 && (s[0] == '+' || s[0] == '-') && AllDigits(s[1..]))
  {
    if AllDigits(s) then Some(DigitsValue(s))
    else if |s| >= 2 && s[0] == '+' && AllDigits(s[1..]) then Some(DigitsValue(s[1..]))
    else if |s| >= 2 && s[0] == '-' && AllDigits(s[1..]) then Some(0 - DigitsValue(s[1..]) as int)
    else None
  }

  lemma {:induction false} DigitsRoundTrip(n: nat)
    ensures DigitsValue(NatToString(n)) == n
  {
    if n >= 10 {
      DigitsRoundTrip(n / 10);
      var s := NatToString(n);
      assert s[..|s| - 1] == NatToString(n / 10);
    }
  }

  /** `int(str(n)) == n` for every natural number. */
  lemma {:induction false} ParseIntOfNatToString(n: nat)
    ensures ParseInt(NatToString(n)) == Some(n)
  {
    DigitsRoundTrip(n);
  }
}
