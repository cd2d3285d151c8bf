/** POSIX path helpers with the semantics of Python's `os.path.join` and
    `os.path.splitext` (separator `/`, extension separator `.`). */
module Paths {
  import opened Wrappers
  import opened Text

  /** `os.path.join(a, b)`: an absolute `b` replaces `a`; otherwise one
      separator is put between them unless `a` is empty or already ends in
      one. */
  function Join(a: string, b: string): (r: string)
    ensures StartsWith(b, "/") ==> r == b
    ensures !StartsWith(b, "/") ==> StartsWith(r, a) && EndsWith(r, b)
    ensures !StartsWith(b, "/") ==> |r| == |a| + |b| + (if a == [] || EndsWith(a, "/") then 0 else 1)
    ensures !StartsWith(b, "/") && |r| > |a| + |b| ==> r[|a|] == '/'
  {
    if StartsWith(b, "/") then b
    else if a == [] || EndsWith(a, "/") then
      assert (a + b)[..|a|] == a;
      assert (a + b)[|a + b| - |b|..] == b;
      a + b
    else
      assert (a + "/" + b)[..|a|] == a;
      assert (a + "/" + b)[|a + "/" + b| - |b|..] == b;
      a + "/" + b
  }

  /** Position of the last `c` in `s`, if any. */
  function LastIndexOf(s: string, c: char): (r: Option<nat>)
    ensures r.None? <==> c !in s
    ensures r.Some? ==> r.value < |s| && s[r.value] == c && c !in s[r.value + 1..]
  {
    if s == [] then None
    else if s[|s| - 1] == c then
      Some(|s| - 1)
    else
      match LastIndexOf(s[..|s| - 1], c)
      case None =>
        assert s == s[..|s| - 1] + [s[|s| - 1]];
        None
      case Some(i) =>
        assert s[i + 1..] == s[..|s| - 1][i + 1..] + [s[|s| - 1]];
        Some(i)
  }

  /** Start of the last path component. */
  function BaseStart(p: string): (b: nat)
    ensures b <= |p| && '/' !in p[b..]
    ensures b > 0 ==> p[b - 1] == '/'
  {
    match LastIndexOf(p, '/')
    case None => 0
    case Some(i) => i + 1
  }

  /** `os.path.splitext(p)[1]`: from the last dot of the last component,
      provided that the component has something other than dots before
      it; otherwise empty. A leading dot (`.bashrc`) starts no extension. */
  function Ext(p: string): (r: string)
    ensures r == [] || (EndsWith(p, r) && r[0] == '.' && '.' !in r[1..] && '/' !in r)
  {
    var b := BaseStart(p);
    match LastIndexOf(p, '.')
    case None => []
    case Some(d) =>
      if d > b && exists k :: b <= k < d && p[k] != '.' then
        TailFromDot(p, b, d);
        p[d..]
      else []
  }

  /** The text from a last dot inside the last component is an extension. */
  lemma {:induction false} TailFromDot(p: string, b: nat, d: nat)
    requires b <= d < |p| && '/' !in p[b..] && p[d] == '.' && '.' !in p[d + 1..]
    ensures EndsWith(p, p[d..]) && p[d..][0] == '.' && '.' !in p[d..][1..] && '/' !in p[d..]
  {
    assert p[d..][1..] == p[d + 1..];
    assert p[d..] == p[b..][d - b..];
  }

  /** A suffix without `c` leaves the last `c` where it was. */
  lemma {:induction false} LastIndexOfAppend(a: string, b: string, c: char)
    requires c !in b
    ensures LastIndexOf(a + b, c) == LastIndexOf(a, c)
    decreases |b|
  {
    if b != [] {
      var b' := b[..|b| - 1];
      assert (a + b)[..|a + b| - 1] == a + b';
      assert (a + b)[|a + b| - 1] == b[|b| - 1];
      assert forall k :: 0 <= k < |b'| ==> b'[k] == b[k];
      LastIndexOfAppend(a, b', c);
    } else {
      assert a + b == a;
    }
  }

  /** The extension of a name is exactly the suffix it was given, when the
      suffix is a dot followed by anything but dots and separators, and the
      last component before it has a character other than a dot. */
  lemma {:induction false} ExtOfSuffix(stem: string, ext: string)
    requires |ext| >= 1 && ext[0] == '.' && '.' !in ext[1..] && '/' !in ext
    requires exists k :: BaseStart(stem) <= k < |stem| && stem[k] != '.'
    ensures Ext(stem + ext) == ext
  {
    var p := stem + ext;
    assert p == (stem + ['.']) + ext[1..] by { assert ext == ['.'] + ext[1..]; }
    LastIndexOfAppend(stem + ['.'], ext[1..], '.');
    assert LastIndexOf(p, '.') == Some(|stem|);
    assert p == stem + ext;
    LastIndexOfAppend(stem, ext, '/');
    var bs := BaseStart(stem);
    assert BaseStart(p) == bs;
    var k :| bs <= k < |stem| && stem[k] != '.';
    assert p[k] == stem[k];
    assert p[|stem|..] == ext;
  }
}
