/** The translation loader: it tracks the modification times of every
    locale's catalog file under every locale directory (present or not),
    and when something changed, or a reload is forced, rebuilds each
    locale's catalog from the files that exist, later directories
    overriding earlier ones. The file system is a parameter: a map from
    the path of each existing file to its time and its lines. */
module Loader {
  import opened Wrappers
  import opened Changes
  import Paths
  import Po
  import P = Parser

  datatype File<S> = File(time: S, lines: seq<string>)

  /** The times of the existing files. */
  function Times<S>(fs: map<string, File<S>>): (t: map<string, S>)
    ensures t.Keys == fs.Keys
  {
    map p | p in fs :: fs[p].time
  }

  /** Where a locale's catalog lives under one locale directory. */
  function TranslationPath(localePath: string, locale: string): string {
    Paths.Join(Paths.Join(localePath, locale), "LC_MESSAGES/django.po")
  }

  /** A locale's catalog file under each locale directory, in order. */
  function CandidatePaths(locale: string, localePaths: seq<string>): (r: seq<string>)
    ensures |r| == |localePaths|
    ensures forall j :: 0 <= j < |r| ==> r[j] == TranslationPath(localePaths[j], locale)
  {
    seq(|localePaths|, j requires 0 <= j < |localePaths| => TranslationPath(localePaths[j], locale))
  }

  /** The paths of `paths` that are existing files, in order. */
  function Existing<S>(paths: seq<string>, fs: map<string, File<S>>): (r: seq<string>)
    ensures forall p :: p in r <==> p in paths && p in fs
    ensures forall i :: 0 <= i < |r| ==> r[i] in fs
    ensures |r| <= |paths|
  {
    if paths == [] then []
    else
      var rest := Existing(paths[1..], fs);
      assert forall p :: p in paths <==> p == paths[0] || p in paths[1..];
      (if paths[0] in fs then [paths[0]] else []) + rest
  }

  /** A locale's catalog files: all candidates, or only those that
      exist. */
  function TranslationFiles<S>(locale: string, localePaths: seq<string>, fs: map<string, File<S>>, includeMissing: bool): seq<string> {
    var c := CandidatePaths(locale, localePaths);
    if includeMissing then c else Existing(c, fs)
  }

  /** The files a locale's catalog is built from are its catalog files
      under the locale directories, those that exist. */
  lemma {:induction false} TranslationFilesIff<S>(locale: string, localePaths: seq<string>, fs: map<string, File<S>>,
                                                  includeMissing: bool, p: string)
    ensures p in TranslationFiles(locale, localePaths, fs, includeMissing) <==>
      (includeMissing || p in fs) && exists j :: 0 <= j < |localePaths| && p == TranslationPath(localePaths[j], locale)
  {
    var c := CandidatePaths(locale, localePaths);
    if exists j :: 0 <= j < |localePaths| && p == TranslationPath(localePaths[j], locale) {
      var j :| 0 <= j < |localePaths| && p == TranslationPath(localePaths[j], locale);
      assert c[j] == p;
    }
  }

  /** Filtering keeps the order: the existing files of `a + b` are those
      of `a`, then those of `b`. */
  lemma {:induction false} ExistingAppend<S>(a: seq<string>, b: seq<string>, fs: map<string, File<S>>)
    ensures Existing(a + b, fs) == Existing(a, fs) + Existing(b, fs)
    decreases |a|
  {
    if a != [] {
      assert (a + b)[1..] == a[1..] + b;
      ExistingAppend(a[1..], b, fs);
    } else {
      assert a + b == b;
    }
  }

  /** The catalog files in `locale_paths` order: one more locale
      directory adds its catalog file at the end, when it exists or
      missing files are included, and nothing otherwise. */
  lemma {:induction false} TranslationFilesInOrder<S>(locale: string, localePaths: seq<string>, last: string,
                                                      fs: map<string, File<S>>, includeMissing: bool)
    ensures TranslationFiles(locale, [], fs, includeMissing) == []
    ensures var p := TranslationPath(last, locale);
      TranslationFiles(locale, localePaths + [last], fs, includeMissing) ==
        TranslationFiles(locale, localePaths, fs, includeMissing) + (if includeMissing || p in fs then [p] else [])
  {
    var c := CandidatePaths(locale, localePaths);
    var p := TranslationPath(last, locale);
    CandidatesAppend(locale, localePaths, [last]);
    CandidatesOne(locale, last);
    ExistingAppend(c, [p], fs);
    ExistingOne(p, fs);
  }

  lemma {:induction false} CandidatesOne(locale: string, localePath: string)
    ensures CandidatePaths(locale, [localePath]) == [TranslationPath(localePath, locale)]
  {
    assert CandidatePaths(locale, [localePath])[0] == TranslationPath([localePath][0], locale);
  }

  lemma {:induction false} CandidatesAppend(locale: string, a: seq<string>, b: seq<string>)
    ensures CandidatePaths(locale, a + b) == CandidatePaths(locale, a) + CandidatePaths(locale, b)
  {
    var l := CandidatePaths(locale, a + b);
    var r := CandidatePaths(locale, a) + CandidatePaths(locale, b);
    assert |l| == |r|;
    forall i | 0 <= i < |l| ensures l[i] == r[i] {
      var lp := (a + b)[i];
      assert l[i] == TranslationPath(lp, locale);
      if i < |a| {
        assert lp == a[i];
        assert r[i] == CandidatePaths(locale, a)[i];
      } else {
        assert lp == b[i - |a|];
        assert r[i] == CandidatePaths(locale, b)[i - |a|];
      }
    }
  }


  lemma {:induction false} ExistingOne<S>(p: string, fs: map<string, File<S>>)
    ensures Existing([p], fs) == if p in fs then [p] else []
  {
    assert [p][1..] == [];
  }

  /** What reading one existing file gives. */
  function FileCatalog<S>(p: string, fs: map<string, File<S>>): Result<Po.Catalog, P.Failure>
    requires p in fs
  {
    P.ParseCatalog(Some(p), fs[p].lines)
  }

  /** Reading one more file adds its outcome at the end. */
  lemma {:induction false} ReadAllSnoc<S>(paths: seq<string>, p: string, fs: map<string, File<S>>)
    requires forall i :: 0 <= i < |paths| ==> paths[i] in fs
    requires p in fs
    ensures ReadAll(paths + [p], fs) == ReadAll(paths, fs) + [FileCatalog(p, fs)]
  {
  }

  /** A key of a locale's catalog takes its value from the last locale
      directory whose catalog file has it. */
  lemma {:induction false} LastDirectoryWins<S>(locale: string, localePaths: seq<string>, fs: map<string, File<S>>,
                                                j: nat, k: Po.CatalogKey)
    requires LoadLocale(TranslationFiles(locale, localePaths, fs, false), fs).1 == None
    requires j < |localePaths| && TranslationPath(localePaths[j], locale) in fs
    requires FileCatalog(TranslationPath(localePaths[j], locale), fs).Ok?
    requires k in FileCatalog(TranslationPath(localePaths[j], locale), fs).value
    requires forall i :: j < i < |localePaths| && TranslationPath(localePaths[i], locale) in fs ==>
      FileCatalog(TranslationPath(localePaths[i], locale), fs).Ok? ==> k !in FileCatalog(TranslationPath(localePaths[i], locale), fs).value
    ensures var c := LoadLocale(TranslationFiles(locale, localePaths, fs, false), fs).0;
      k in c && c[k] == FileCatalog(TranslationPath(localePaths[j], locale), fs).value[k]
    decreases |localePaths|
  {
    var ps := TranslationFiles(locale, localePaths, fs, false);
    var x := FileOfDirectory(locale, localePaths, fs, j);
    var outcomes := ReadAll(ps, fs);
    assert outcomes[x] == FileCatalog(ps[x], fs);
    forall y | x < y < |outcomes| ensures k !in outcomes[y].value {
      var i :| j < i < |localePaths| && ps[y] == TranslationPath(localePaths[i], locale);
      assert outcomes[y] == FileCatalog(ps[y], fs);
    }
    LaterFileWins(outcomes, x, k);
  }

  /** The catalog file of the locale directory at `j`, when it exists,
      comes after those of the earlier directories and before those of
      the later ones. */
  lemma {:induction false} FileOfDirectory<S>(locale: string, localePaths: seq<string>, fs: map<string, File<S>>, j: nat)
    returns (x: nat)
    requires j < |localePaths| && TranslationPath(localePaths[j], locale) in fs
    ensures var ps := TranslationFiles(locale, localePaths, fs, false);
      x < |ps| && ps[x] == TranslationPath(localePaths[j], locale) &&
      forall y :: x < y < |ps| ==> exists i :: j < i < |localePaths| && ps[y] == TranslationPath(localePaths[i], locale)
  {
    var after := localePaths[j + 1..];
    var ea := Existing(CandidatePaths(locale, localePaths[..j]), fs);
    var eb := Existing(CandidatePaths(locale, after), fs);
    var ps := TranslationFiles(locale, localePaths, fs, false);
    FilesAround(locale, localePaths, fs, j);
    AfterSplit(ps, ea, TranslationPath(localePaths[j], locale), eb);
    x := |ea|;
    forall y | x < y < |ps| ensures exists i :: j < i < |localePaths| && ps[y] == TranslationPath(localePaths[i], locale) {
      var i' := ExistingFrom(locale, after, fs, ps[y]);
      assert localePaths[j + 1 + i'] == after[i'];
    }
  }

  /** The existing catalog files are those of the directories before `j`,
      the one of `j`, and those of the directories after it. */
  lemma {:induction false} FilesAround<S>(locale: string, localePaths: seq<string>, fs: map<string, File<S>>, j: nat)
    requires j < |localePaths| && TranslationPath(localePaths[j], locale) in fs
    ensures TranslationFiles(locale, localePaths, fs, false) ==
      Existing(CandidatePaths(locale, localePaths[..j]), fs) + [TranslationPath(localePaths[j], locale)] +
      Existing(CandidatePaths(locale, localePaths[j + 1..]), fs)
  {
    var before := localePaths[..j];
    var after := localePaths[j + 1..];
    var q := TranslationPath(localePaths[j], locale);
    assert localePaths == before + [localePaths[j]] + after;
    CandidatesAppend(locale, before + [localePaths[j]], after);
    CandidatesAppend(locale, before, [localePaths[j]]);
    CandidatesOne(locale, localePaths[j]);
    var ca := CandidatePaths(locale, before);
    var cb := CandidatePaths(locale, after);
    ExistingAppend(ca + [q], cb, fs);
    ExistingAppend(ca, [q], fs);
    ExistingOne(q, fs);
  }

  lemma {:induction false} AfterSplit<T>(s: seq<T>, a: seq<T>, x: T, b: seq<T>)
    requires s == a + [x] + b
    ensures |a| < |s| && s[|a|] == x
    ensures forall y :: |a| < y < |s| ==> s[y] in b
  {
    forall y | |a| < y < |s| ensures s[y] in b {
      assert s[y] == b[y - |a| - 1];
    }
  }

  /** An existing catalog file of some directories is the catalog file of
      one of them. */
  lemma {:induction false} ExistingFrom<S>(locale: string, localePaths: seq<string>, fs: map<string, File<S>>, p: string)
    returns (i: nat)
    requires p in Existing(CandidatePaths(locale, localePaths), fs)
    ensures i < |localePaths| && p == TranslationPath(localePaths[i], locale)
  {
    var c := CandidatePaths(locale, localePaths);
    assert p in c;
    i :| 0 <= i < |c| && c[i] == p;
  }


  /** A successful fold over one more outcome is the fold over the
      earlier ones, overridden by the last catalog. */
  lemma {:induction false} OverlaySnoc(outcomes: seq<Result<Po.Catalog, P.Failure>>, last: Result<Po.Catalog, P.Failure>)
    requires Overlay(outcomes + [last]).1 == None
    ensures Overlay(outcomes).1 == None && last.Ok?
    ensures Overlay(outcomes + [last]).0 == Overlay(outcomes).0 + last.value
  {
    assert (outcomes + [last])[..|outcomes|] == outcomes;
  }


  /** Every path the change check looks at: each locale's catalog file
      under each locale directory, existing or not. */
  function Candidates(locales: seq<string>, localePaths: seq<string>): (r: set<string>)
    ensures forall p :: p in r <==> exists i, j :: 0 <= i < |locales| && 0 <= j < |localePaths| && p == TranslationPath(localePaths[j], locales[i])
  {
    set i, j | 0 <= i < |locales| && 0 <= j < |localePaths| :: TranslationPath(localePaths[j], locales[i])
  }

  datatype Loader<S> = Loader(tracked: map<string, S>, dirty: bool, catalogs: map<string, Po.Catalog>)

  /** A new loader tracks nothing, is dirty and has loaded nothing. */
  function New<S>(): (l: Loader<S>)
    ensures l.dirty && l.tracked == map[] && l.catalogs == map[]
  {
    Loader(map[], true, map[])
  }

  /** Looks at every candidate: records the time of those that exist,
      forgets those that do not, and becomes dirty if anything changed.
      The candidates are visited locale by locale in the code; looking
      at a path is independent of the others and idempotent, so the set
      of candidates is what matters. Tracked paths that are no longer
      candidates are kept. */
  method CheckForChanges<S(==)>(l: Loader<S>, locales: seq<string>, localePaths: seq<string>, fs: map<string, File<S>>)
    returns (r: Loader<S>)
    ensures r.tracked == Refreshed(l.tracked, Candidates(locales, localePaths), Times(fs))
    ensures r.dirty <==> l.dirty || exists p :: p in Candidates(locales, localePaths) && Stale(l.tracked, p, Times(fs))
    ensures r.catalogs == l.catalogs
  {
    var t, changed := Refresh(l.tracked, Candidates(locales, localePaths), Times(fs));
    r := l.(tracked := t, dirty := l.dirty || changed);
  }

  /** What reading each file gives, in order. */
  function ReadAll<S>(paths: seq<string>, fs: map<string, File<S>>): (r: seq<Result<Po.Catalog, P.Failure>>)
    requires forall i :: 0 <= i < |paths| ==> paths[i] in fs
    ensures |r| == |paths|
  {
    seq(|paths|, i requires 0 <= i < |paths| => P.ParseCatalog(Some(paths[i]), fs[paths[i]].lines))
  }

  /** Folds the files' catalogs in order, each overriding the earlier
      ones; a file that cannot be read stops the fold, leaving the catalog
      as it stands and the failure. */
  function Overlay(outcomes: seq<Result<Po.Catalog, P.Failure>>): (r: (Po.Catalog, Option<P.Failure>))
    ensures r.1 == None <==> forall i :: 0 <= i < |outcomes| ==> outcomes[i].Ok?
    ensures r.1 == None ==> forall k :: k in r.0 <==> exists i :: 0 <= i < |outcomes| && k in outcomes[i].value
    ensures r.1 != None ==> exists i :: 0 <= i < |outcomes| && outcomes[i] == Err((r.1).value)
    decreases |outcomes|
  {
    if outcomes == [] then (map[], None)
    else
      var n := |outcomes| - 1;
      var prefix := outcomes[..n];
      assert forall i :: 0 <= i < n ==> prefix[i] == outcomes[i];
      var (c, e) := Overlay(prefix);
      if e.Some? then (c, e)
      else
        match outcomes[n]
        case Ok(d) => (c + d, None)
        case Err(f) => (c, Some(f))
  }

  /** Later files win: a key takes its value from the last file that has
      it. */
  lemma {:induction false} LaterFileWins(outcomes: seq<Result<Po.Catalog, P.Failure>>, i: nat, k: Po.CatalogKey)
    requires Overlay(outcomes).1 == None
    requires i < |outcomes| && k in outcomes[i].value
    requires forall j :: i < j < |outcomes| ==> k !in outcomes[j].value
    ensures k in Overlay(outcomes).0 && Overlay(outcomes).0[k] == outcomes[i].value[k]
    decreases |outcomes|
  {
    var n := |outcomes| - 1;
    var prefix := outcomes[..n];
    assert forall j :: 0 <= j < n ==> prefix[j] == outcomes[j];
    if i < n {
      LaterFileWins(prefix, i, k);
    }
  }

  /** Builds one locale's catalog from the files that exist. */
  function LoadLocale<S>(paths: seq<string>, fs: map<string, File<S>>): (Po.Catalog, Option<P.Failure>)
    requires forall i :: 0 <= i < |paths| ==> paths[i] in fs
  {
    Overlay(ReadAll(paths, fs))
  }

  /** Rebuilds the catalog of every locale in order, stopping at the first
      failure with the catalogs rebuilt so far (the failing locale's one
      partly). */
  function Load<S>(catalogs: map<string, Po.Catalog>, locales: seq<string>, localePaths: seq<string>,
                   fs: map<string, File<S>>): (r: (map<string, Po.Catalog>, Option<P.Failure>))
    decreases |locales|
  {
    if locales == [] then (catalogs, None)
    else
      var n := |locales| - 1;
      var (cs, e) := Load(catalogs, locales[..n], localePaths, fs);
      if e.Some? then (cs, e)
      else
        var (c, e') := LoadLocale(TranslationFiles(locales[n], localePaths, fs, false), fs);
        (cs[locales[n] := c], e')
  }

  /** A successful load gives every locale a catalog and leaves the
      catalogs of other locales as they were. */
  lemma {:induction false} LoadCovers<S>(catalogs: map<string, Po.Catalog>, locales: seq<string>, localePaths: seq<string>,
                                        fs: map<string, File<S>>)
    requires Load(catalogs, locales, localePaths, fs).1 == None
    ensures forall i :: 0 <= i < |locales| ==> locales[i] in Load(catalogs, locales, localePaths, fs).0
    ensures forall x :: x in Load(catalogs, locales, localePaths, fs).0 && x !in locales ==>
      x in catalogs && Load(catalogs, locales, localePaths, fs).0[x] == catalogs[x]
    decreases |locales|
  {
    if locales != [] {
      var n := |locales| - 1;
      var (cs, e) := Load(catalogs, locales[..n], localePaths, fs);
      var c := LoadLocale(TranslationFiles(locales[n], localePaths, fs, false), fs).0;
      assert Load(catalogs, locales, localePaths, fs).0 == cs[locales[n] := c];
      LoadCovers(catalogs, locales[..n], localePaths, fs);
      forall i | 0 <= i < n ensures locales[i] in cs {
        assert locales[..n][i] == locales[i];
      }
      forall x | x !in locales ensures x !in locales[..n] {
      }
    }
  }

  /** A successful load gives each locale the catalog built from its
      existing files. */
  lemma {:induction false} LoadedCatalog<S>(catalogs: map<string, Po.Catalog>, locales: seq<string>, localePaths: seq<string>,
                                           fs: map<string, File<S>>, i: nat)
    requires Load(catalogs, locales, localePaths, fs).1 == None && i < |locales|
    requires forall j :: i < j < |locales| ==> locales[j] != locales[i]
    ensures locales[i] in Load(catalogs, locales, localePaths, fs).0 && Load(catalogs, locales, localePaths, fs).0[locales[i]] ==
      LoadLocale(TranslationFiles(locales[i], localePaths, fs, false), fs).0
    decreases |locales|
  {
    var n := |locales| - 1;
    var (cs, e) := Load(catalogs, locales[..n], localePaths, fs);
    var c := LoadLocale(TranslationFiles(locales[n], localePaths, fs, false), fs).0;
    assert Load(catalogs, locales, localePaths, fs).0 == cs[locales[n] := c];
    if i < n {
      assert locales[..n][i] == locales[i];
      assert forall j :: i < j < n ==> locales[..n][j] == locales[j];
      LoadedCatalog(catalogs, locales[..n], localePaths, fs, i);
    }
  }

  /** The loader after one reload, with the failure of the load if it
      failed. */
  function Reloaded<S(==)>(l: Loader<S>, force: bool, locales: seq<string>, localePaths: seq<string>,
                           fs: map<string, File<S>>): (r: (Loader<S>, Option<P.Failure>))
    ensures r.0.tracked == Refreshed(l.tracked, Candidates(locales, localePaths), Times(fs))
    ensures r.0.dirty <==> r.1 != None
  {
    var c := Candidates(locales, localePaths);
    var tracked := Refreshed(l.tracked, c, Times(fs));
    var dirty := force || l.dirty || exists p :: p in c && Stale(l.tracked, p, Times(fs));
    if dirty then
      var (cats, e) := Load(l.catalogs, locales, localePaths, fs);
      (Loader(tracked, e.Some?, cats), e)
    else (Loader(tracked, false, l.catalogs), None)
  }

  /** One reload: a forced reload marks the loader dirty; changes are
      always looked for; a dirty loader loads, and stays dirty if loading
      fails. */
  method Reload<S(==)>(l: Loader<S>, force: bool, locales: seq<string>, localePaths: seq<string>, fs: map<string, File<S>>)
    returns (r: Loader<S>, failure: Option<P.Failure>)
    ensures (r, failure) == Reloaded(l, force, locales, localePaths, fs)
  {
    r := l;
    if force {
      r := r.(dirty := true);
    }
    r := CheckForChanges(r, locales, localePaths, fs);
    failure := None;
    if r.dirty {
      var (cats, e) := Load(r.catalogs, locales, localePaths, fs);
      r := r.(catalogs := cats, dirty := e.Some?);
      failure := e;
    }
  }

  /** A forced reload always rebuilds the catalogs. */
  lemma {:induction false} ForcedReloadLoads<S>(l: Loader<S>, locales: seq<string>, localePaths: seq<string>, fs: map<string, File<S>>)
    ensures Reloaded(l, true, locales, localePaths, fs).0.catalogs == Load(l.catalogs, locales, localePaths, fs).0
  {
  }

  /** After a successful reload, an unforced reload on the same file
      system changes nothing. */
  lemma {:induction false} ReloadSettles<S>(l: Loader<S>, force: bool, locales: seq<string>, localePaths: seq<string>,
                                              fs: map<string, File<S>>)
    requires Reloaded(l, force, locales, localePaths, fs).1 == None
    ensures var l1 := Reloaded(l, force, locales, localePaths, fs).0;
      Reloaded(l1, false, locales, localePaths, fs) == (l1, None)
  {
    RefreshedSettles(l.tracked, Candidates(locales, localePaths), Times(fs));
  }

  /** A clean loader rebuilds on an unforced reload exactly when a
      candidate file appeared, disappeared or has a new time. */
  lemma {:induction false} ReloadOnChange<S>(l: Loader<S>, locales: seq<string>, localePaths: seq<string>, fs: map<string, File<S>>)
    requires !l.dirty
    ensures Reloaded(l, false, locales, localePaths, fs).0.catalogs != l.catalogs ==>
      exists p :: p in Candidates(locales, localePaths) && Stale(l.tracked, p, Times(fs))
    ensures (exists p :: p in Candidates(locales, localePaths) && Stale(l.tracked, p, Times(fs))) ==>
      Reloaded(l, false, locales, localePaths, fs).0.catalogs == Load(l.catalogs, locales, localePaths, fs).0
  {
  }
}
