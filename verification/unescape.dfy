/** The older stand-alone decoder module. It compiles the same pattern as
    the codec's decoder and carries a copy of the same handler; here it is
    written as the left-to-right scan that the pattern substitution
    performs, over the codec's recognisers, and proved to agree with the
    codec's decoder on every input. */
module LegacyUnescape {
  import opened Wrappers
  import Strings

  /** Prefixes already-decoded text to the outcome of decoding the rest. */
  function Prepend(done: string, rest: Result<string, Strings.UnescapeError>): Result<string, Strings.UnescapeError> {
    match rest
    case Ok(v) => Ok(done + v)
    case Err(e) => Err(e)
  }

  lemma {:induction false} PrependPrepend(a: string, b: string, r: Result<string, Strings.UnescapeError>)
    ensures Prepend(a, Prepend(b, r)) == Prepend(a + b, r)
  {
    if r.Ok? {
      assert a + (b + r.value) == (a + b) + r.value;
    }
  }

  lemma {:induction false} PrependNothing(r: Result<string, Strings.UnescapeError>)
    ensures Prepend([], r) == r
  {
    if r.Ok? {
      assert [] + r.value == r.value;
    }
  }

  // One lemma per branch of the pattern: decoding a text that starts with
  // that branch's match is the replacement followed by decoding the rest.

  lemma {:induction false} LiteralStep(t: string)
    requires t != [] && t[0] != '\\'
    ensures Strings.Unescape(t) == Prepend([t[0]], Strings.Unescape(t[1..]))
  {
  }

  lemma {:induction false} SimpleStep(t: string)
    requires |t| >= 2 && t[0] == '\\' && Strings.IsSimpleCode(t[1])
    ensures Strings.Unescape(t) == Prepend([Strings.SimpleCodeChar(t[1])], Strings.Unescape(t[2..]))
  {
  }

  lemma {:induction false} OctalStep(t: string, n: nat, cp: Result<char, Strings.UnescapeError>)
    requires |t| >= 2 && t[0] == '\\' && !Strings.IsSimpleCode(t[1]) && Strings.IsOctalDigit(t[1])
    requires n == Strings.OctalRun(t[1..]) && cp == Strings.CodePoint(Strings.OctalValue(t[1..1 + n]))
    ensures cp.Err? ==> Strings.Unescape(t) == Err(cp.error)
    ensures cp.Ok? ==> Strings.Unescape(t) == Prepend([cp.value], Strings.Unescape(t[1 + n..]))
  {
  }

  lemma {:induction false} HexStep(t: string, n: nat, cp: Result<char, Strings.UnescapeError>)
    requires |t| >= 3 && t[0] == '\\' && t[1] == 'x' && Strings.IsHexDigit(t[2])
    requires n == Strings.HexRun(t[2..]) && cp == Strings.CodePoint(Strings.HexValue(t[2..2 + n]))
    ensures cp.Err? ==> Strings.Unescape(t) == Err(cp.error)
    ensures cp.Ok? ==> Strings.Unescape(t) == Prepend([cp.value], Strings.Unescape(t[2 + n..]))
  {
  }

  /** What one match of the pattern does: emits its replacement and leaves
      the rest of the text, or fails with the codec's error. */
  datatype StepOutcome = Emit(piece: string, next: string) | Fail(error: Strings.UnescapeError)

  /** Decodes the match at the head of `rest`. */
  method Step(rest: string) returns (o: StepOutcome)
    requires rest != []
    ensures o.Emit? ==> |o.next| < |rest| && Strings.Unescape(rest) == Prepend(o.piece, Strings.Unescape(o.next))
    ensures o.Fail? ==> Strings.Unescape(rest) == Err(o.error)
  {
    if rest[0] != '\\' {
      LiteralStep(rest);
      return Emit([rest[0]], rest[1..]);
    } else if |rest| == 1 {
      return Fail(Strings.InvalidEscape(None));
    } else if Strings.IsSimpleCode(rest[1]) {
      SimpleStep(rest);
      return Emit([Strings.SimpleCodeChar(rest[1])], rest[2..]);
    } else if Strings.IsOctalDigit(rest[1]) {
      var n := Strings.OctalRun(rest[1..]);
      var cp := Strings.CodePoint(Strings.OctalValue(rest[1..1 + n]));
      OctalStep(rest, n, cp);
      if cp.Err? {
        return Fail(cp.error);
      }
      return Emit([cp.value], rest[1 + n..]);
    } else if rest[1] == 'x' && |rest| > 2 && Strings.IsHexDigit(rest[2]) {
      var n := Strings.HexRun(rest[2..]);
      var cp := Strings.CodePoint(Strings.HexValue(rest[2..2 + n]));
      HexStep(rest, n, cp);
      if cp.Err? {
        return Fail(cp.error);
      }
      return Emit([cp.value], rest[2 + n..]);
    } else if rest[1] == '\n' {
      return Fail(Strings.InvalidEscape(None));
    } else {
      return Fail(Strings.InvalidEscape(Some(rest[1])));
    }
  }

  /** Decodes `s` exactly as the codec's decoder does: every escape of the
      same pattern gets the same replacement, and the first bad escape from
      the left gives the same error. */
  method Unescape(s: string) returns (r: Result<string, Strings.UnescapeError>)
    ensures r == Strings.Unescape(s)
  {
    var out := "";
    var rest := s;
    PrependNothing(Strings.Unescape(s));
    while rest != []
      invariant Strings.Unescape(s) == Prepend(out, Strings.Unescape(rest))
      decreases |rest|
    {
      var o := Step(rest);
      if o.Fail? {
        return Err(o.error);
      }
      PrependPrepend(out, o.piece, Strings.Unescape(o.next));
      out := out + o.piece;
      rest := o.next;
    }
    assert out + [] == out;
    return Ok(out);
  }
}
