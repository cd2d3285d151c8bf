/** The catalog updater: which source files are scanned and by which
    extractor, how a scanned file is named in the catalog's location
    comments, and how the freshly extracted catalog is merged with a
    locale's existing catalog file before being written back. The
    directory walk and the file system are parameters: a walk is the
    sequence of directories it visits with the file names in each. */
module Updater {
  import opened Wrappers
  import opened Text
  import Paths
  import Po
  import P = Parser
  import PoDump
  import LineGrammar

  // ---- Dispatch on the extension ----

  datatype ExtractorKind = TemplateExtractor | PythonExtractor

  /** The extractor registered for an extension: templates for `.html`
      and `.txt`, the Python extractor for `.py`, none otherwise. */
  function ExtractorFor(ext: string): (r: Option<ExtractorKind>)
    ensures r == Some(PythonExtractor) <==> ext == ".py"
    ensures r == Some(TemplateExtractor) <==> ext == ".html" || ext == ".txt"
  {
    if ext == ".html" || ext == ".txt" then Some(TemplateExtractor)
    else if ext == ".py" then Some(PythonExtractor)
    else None
  }

  /** The extractor of a file name. */
  function ExtractorOf(filename: string): Option<ExtractorKind> {
    ExtractorFor(Paths.Ext(filename))
  }

  /** A file named `<stem>.py` goes to the Python extractor and one named
      `<stem>.html` to the template extractor, when the stem has a
      character other than a dot in its last component. */
  lemma {:induction false} DispatchBySuffix(stem: string)
    requires exists k :: Paths.BaseStart(stem) <= k < |stem| && stem[k] != '.'
    ensures ExtractorOf(stem + ".py") == Some(PythonExtractor)
    ensures ExtractorOf(stem + ".html") == Some(TemplateExtractor)
  {
    Paths.ExtOfSuffix(stem, ".py");
    Paths.ExtOfSuffix(stem, ".html");
  }

  /** A name that is all extension, like `.py`, is not dispatched. */
  lemma {:induction false} HiddenFileNotDispatched()
    ensures ExtractorOf(".py") == None
  {
    assert Paths.LastIndexOf(".py", '/') == None;
    assert Paths.LastIndexOf(".py", '.') == Some(0);
  }

  /** Only the last extension counts: `a.py.orig` is not dispatched. */
  lemma {:induction false} LastExtensionCounts()
    ensures ExtractorOf("a.py.orig") == None
  {
    assert Paths.LastIndexOf("a.py.orig", '.') == Some(4);
    assert "a.py.orig"[4..] == ".orig";
  }

  // ---- Listing the files to scan ----

  /** One directory visited by the walk and the files in it. */
  datatype WalkDir = WalkDir(dirpath: string, filenames: seq<string>)

  /** The dispatched files of one directory with their extractors, in
      order. */
  function Dispatched(filenames: seq<string>): (r: seq<(string, ExtractorKind)>)
    ensures forall x :: x in r <==> x.0 in filenames && ExtractorOf(x.0) == Some(x.1)
  {
    if filenames == [] then []
    else
      var f := filenames[0];
      var rest := Dispatched(filenames[1..]);
      assert forall g :: g in filenames <==> g == f || g in filenames[1..];
      match ExtractorOf(f)
      case None => rest
      case Some(kind) => [(f, kind)] + rest
  }

  /** The paths of the dispatched files of one directory, in order. */
  function DirFiles(d: WalkDir): seq<string> {
    var es := Dispatched(d.filenames);
    seq(|es|, i requires 0 <= i < |es| => Paths.Join(d.dirpath, es[i].0))
  }

  /** A directory lists the path of a file exactly when the file is in it
      and has an extractor. */
  lemma {:induction false} DirFilesIff(d: WalkDir, p: string)
    ensures p in DirFiles(d) <==> exists f :: f in d.filenames && ExtractorOf(f).Some? && p == Paths.Join(d.dirpath, f)
  {
    if p in DirFiles(d) {
      DirFileListed(d, p);
    }
    if exists f :: f in d.filenames && ExtractorOf(f).Some? && p == Paths.Join(d.dirpath, f) {
      var f :| f in d.filenames && ExtractorOf(f).Some? && p == Paths.Join(d.dirpath, f);
      ListedFileDir(d, f);
    }
  }

  lemma {:induction false} DirFileListed(d: WalkDir, p: string)
    requires p in DirFiles(d)
    ensures exists f :: f in d.filenames && ExtractorOf(f).Some? && p == Paths.Join(d.dirpath, f)
  {
    var es := Dispatched(d.filenames);
    var i :| 0 <= i < |es| && DirFiles(d)[i] == p;
    assert es[i] in es;
  }

  lemma {:induction false} ListedFileDir(d: WalkDir, f: string)
    requires f in d.filenames && ExtractorOf(f).Some?
    ensures Paths.Join(d.dirpath, f) in DirFiles(d)
  {
    var es := Dispatched(d.filenames);
    assert (f, ExtractorOf(f).value) in es;
    var i :| 0 <= i < |es| && es[i] == (f, ExtractorOf(f).value);
    assert DirFiles(d)[i] == Paths.Join(d.dirpath, f);
  }

  /** The dispatched files of a walk, directory by directory. */
  function WalkFiles(walk: seq<WalkDir>): (r: seq<string>)
    ensures forall p :: p in r <==> exists i :: 0 <= i < |walk| && p in DirFiles(walk[i])
  {
    if walk == [] then []
    else
      var rest := WalkFiles(walk[1..]);
      assert forall i :: 1 <= i < |walk| ==> walk[1..][i - 1] == walk[i];
      DirFiles(walk[0]) + rest
  }

  /** The files the updater would scan under each root, given each root's
      walk. */
  function ListFiles(walks: seq<seq<WalkDir>>): (r: seq<string>)
    ensures forall p :: p in r <==> exists i :: 0 <= i < |walks| && p in WalkFiles(walks[i])
  {
    if walks == [] then []
    else
      var rest := ListFiles(walks[1..]);
      assert forall i :: 1 <= i < |walks| ==> walks[1..][i - 1] == walks[i];
      WalkFiles(walks[0]) + rest
  }

  /** A listed path is the path of a file, in a visited directory, whose
      extension has an extractor; and every such file is listed. */
  lemma {:induction false} ListedIff(walks: seq<seq<WalkDir>>, p: string)
    ensures p in ListFiles(walks) <==>
      exists i, j, f :: 0 <= i < |walks| && 0 <= j < |walks[i]| && f in walks[i][j].filenames &&
        ExtractorOf(f).Some? && p == Paths.Join(walks[i][j].dirpath, f)
  {
    if p in ListFiles(walks) {
      var i :| 0 <= i < |walks| && p in WalkFiles(walks[i]);
      var j :| 0 <= j < |walks[i]| && p in DirFiles(walks[i][j]);
      DirFilesIff(walks[i][j], p);
      var f :| f in walks[i][j].filenames && ExtractorOf(f).Some? && p == Paths.Join(walks[i][j].dirpath, f);
    }
    if exists i, j, f :: 0 <= i < |walks| && 0 <= j < |walks[i]| && f in walks[i][j].filenames &&
        ExtractorOf(f).Some? && p == Paths.Join(walks[i][j].dirpath, f) {
      var i, j, f :| 0 <= i < |walks| && 0 <= j < |walks[i]| && f in walks[i][j].filenames &&
        ExtractorOf(f).Some? && p == Paths.Join(walks[i][j].dirpath, f);
      DirFilesIff(walks[i][j], p);
      assert p in WalkFiles(walks[i]);
    }
  }

  // ---- Naming scanned files ----

  /** Length of the root's prefix in the paths the walk produces: the root
      and the separator after it, unless the root already ends in one. */
  function RootPrefixLength(root: string): (n: nat)
    ensures n == |root| || n == |root| + 1
  {
    |root| + (if EndsWith(root, "/") then 0 else 1)
  }

  /** The name of a scanned file in location comments: its path with the
      root's prefix cut off (empty when the path is shorter, as a slice
      past the end is). */
  function PrintableFilename(root: string, full: string): (r: string)
    ensures RootPrefixLength(root) <= |full| ==> |r| == |full| - RootPrefixLength(root) && EndsWith(full, r)
    ensures RootPrefixLength(root) > |full| ==> r == []
  {
    var n := RootPrefixLength(root);
    if n <= |full| then
      assert full[|full| - |full[n..]|..] == full[n..];
      full[n..]
    else []
  }

  /** A file at relative path `rel` under a non-empty root is named by
      `rel` itself. */
  lemma {:induction false} PrintableOfJoin(root: string, rel: string)
    requires root != [] && !StartsWith(rel, "/")
    ensures PrintableFilename(root, Paths.Join(root, rel)) == rel
  {
    var full := Paths.Join(root, rel);
    if EndsWith(root, "/") {
      assert full == root + rel;
    } else {
      assert full == root + "/" + rel;
    }
    assert full[RootPrefixLength(root)..] == rel;
  }

  /** What the base catalog's construction hands to an extractor: the
      file's path, the name it gets in location comments and the
      extractor to use. */
  datatype Job = Job(full: string, printable: string, kind: ExtractorKind)

  /** The extraction jobs of one directory, in file order: one per listed
      file, named relative to the root, with the extractor of its
      extension. */
  function DirJobs(root: string, d: WalkDir): (r: seq<Job>)
    ensures |r| == |DirFiles(d)|
    ensures forall j :: 0 <= j < |r| ==>
      r[j].full == DirFiles(d)[j] && r[j].printable == PrintableFilename(root, r[j].full) &&
      exists f :: f in d.filenames && ExtractorOf(f) == Some(r[j].kind) && r[j].full == Paths.Join(d.dirpath, f)
  {
    var es := Dispatched(d.filenames);
    var r := seq(|es|, i requires 0 <= i < |es| =>
      var full := Paths.Join(d.dirpath, es[i].0);
      Job(full, PrintableFilename(root, full), es[i].1));
    assert forall j :: 0 <= j < |r| ==> es[j] in es;
    r
  }

  /** The extraction jobs of the base catalog, directory by directory:
      the base catalog scans exactly the files the listing reports, in
      the same order. */
  function BaseJobs(root: string, walk: seq<WalkDir>): (r: seq<Job>)
    ensures |r| == |WalkFiles(walk)|
    ensures forall j :: 0 <= j < |r| ==> r[j].full == WalkFiles(walk)[j] && r[j].printable == PrintableFilename(root, r[j].full)
  {
    if walk == [] then []
    else DirJobs(root, walk[0]) + BaseJobs(root, walk[1..])
  }

  // ---- Merging with a locale's catalog ----

  /** Where a locale keeps its catalog for a domain. */
  function TranslationFilename(localePath: string, domain: string): (r: string)
    ensures StartsWith(r, localePath) && EndsWith(r, "LC_MESSAGES/" + domain + ".po")
    ensures |r| == |localePath| + |"LC_MESSAGES/" + domain + ".po"| + (if localePath == [] || EndsWith(localePath, "/") then 0 else 1)
    ensures |r| > |localePath| + |"LC_MESSAGES/" + domain + ".po"| ==> r[|localePath|] == '/'
  {
    var name := "LC_MESSAGES/" + domain + ".po";
    assert name[0] == 'L';
    Paths.Join(localePath, name)
  }

  /** The base catalog merged with the locale's existing file, if there is
      one (`existing` holds its lines): a copy of the base is read into. */
  function Merged(base: Po.PoFile, filename: string, existing: Option<seq<string>>): (r: Result<Po.PoFile, P.Failure>)
    requires Po.Valid(base)
    ensures r.Ok? ==> Po.Valid(r.value)
    ensures existing.None? ==> r == Ok(Po.Clone(base))
  {
    var d := Po.Clone(base);
    if existing.Some? then P.ParseInto(d, Some(filename), existing.value) else Ok(d)
  }

  datatype UpdateError = ReadFailed(failure: P.Failure) | DumpFailed(error: PoDump.DumpError)

  /** The lines written back to the locale's catalog file, or why nothing
      is written: the existing file could not be read, or the merged
      catalog could not be printed (the file is then left untouched). */
  function UpdateLocale(base: Po.PoFile, localePath: string, domain: string, existing: Option<seq<string>>,
                        includeLocations: bool, prune: bool): (r: Result<seq<string>, UpdateError>)
    requires Po.Valid(base)
    ensures r.Err? && r.error.ReadFailed? ==> existing.Some?
  {
    var m := Merged(base, TranslationFilename(localePath, domain), existing);
    match m
    case Err(f) => Err(ReadFailed(f))
    case Ok(d) =>
      match PoDump.Dump(d, includeLocations, prune)
      case Err(e) => Err(DumpFailed(e))
      case Ok(lines) => Ok(lines)
  }

  /** A locale without a catalog file gets the base catalog as printed. */
  lemma {:induction false} NewLocaleGetsBase(base: Po.PoFile, localePath: string, domain: string,
                                           includeLocations: bool, prune: bool)
    requires Po.Valid(base) && PoDump.Dump(base, includeLocations, prune).Ok?
    ensures UpdateLocale(base, localePath, domain, None, includeLocations, prune) ==
      Ok(PoDump.Dump(base, includeLocations, prune).value)
  {
    assert PoDump.Dump(Po.Clone(base), includeLocations, prune) == PoDump.Dump(base, includeLocations, prune);
  }

  /** Reading an existing catalog into a copy of the base never moves or
      renames the base's entries nor touches their locations, and every
      entry it adds has no location (so that it is printed as obsolete). */
  predicate Extends(base: seq<Po.TranslationEntry>, e: seq<Po.TranslationEntry>) {
    |base| <= |e| &&
    (forall i :: 0 <= i < |base| ==>
      Po.EntryId(e[i]) == Po.EntryId(base[i]) && e[i].locations == base[i].locations) &&
    (forall i :: |base| <= i < |e| ==> e[i].locations == [])
  }

  lemma {:induction false} ExtendsTransitive(a: seq<Po.TranslationEntry>, b: seq<Po.TranslationEntry>, c: seq<Po.TranslationEntry>)
    requires Extends(a, b) && Extends(b, c)
    ensures Extends(a, c)
  {
  }

  lemma {:induction false} StoreEntryExtends(doc: Po.PoFile, state: P.State, p: P.Pending)
    requires Po.Valid(doc) && p.message.Some?
    requires state == P.AfterMsgStr ==> p.translated.Some?
    ensures Extends(doc.entries, P.StoreEntry(doc, state, p).entries)
  {
    if Po.FindEntry(doc.entries, Po.MsgId(p.message.value, p.context)).Some? {
      P.StoredKnownEntry(doc, state, p);
    } else {
      P.StoredNewEntry(doc, state, p);
    }
  }

  lemma {:induction false} FlushExtends(r: P.Reader)
    requires P.Consistent(r) && P.Flush(r).Ok?
    ensures Extends(r.doc.entries, P.Flush(r).value.doc.entries)
  {
    if r.pending.message.Some? && r.pending.message.value != [] {
      StoreEntryExtends(r.doc, r.state, r.pending);
    }
  }

  lemma {:induction false} KeywordExtends(r: P.Reader, filename: Option<string>, n: nat,
                                        kw: LineGrammar.Keyword, index: Option<nat>, raw: string)
    requires P.Consistent(r) && P.StepKeyword(r, filename, n, kw, index, raw).Ok?
    ensures Extends(r.doc.entries, P.StepKeyword(r, filename, n, kw, index, raw).value.doc.entries)
  {
    var out := P.StepKeyword(r, filename, n, kw, index, raw).value;
    match kw
    case MsgCtxt =>
      FlushExtends(r);
      assert out.doc == P.Flush(r).value.doc;
    case MsgId =>
      if r.state == P.AfterMsgCtxt {
        assert out.doc == r.doc;
      } else {
        FlushExtends(r);
        assert out.doc == P.Flush(r).value.doc;
      }
    case MsgIdPlural =>
      assert out.doc == r.doc;
    case MsgStr =>
      assert out.doc == r.doc;
  }

  lemma {:induction false} StepExtends(r: P.Reader, filename: Option<string>, n: nat, line: string)
    requires P.Consistent(r) && P.Step(r, filename, n, line).Ok?
    ensures Extends(r.doc.entries, P.Step(r, filename, n, line).value.doc.entries)
  {
    match LineGrammar.Classify(line)
    case KeywordLine(kw, index, raw) => KeywordExtends(r, filename, n, kw, index, raw);
    case Continuation(raw) => assert P.StepContinuation(r, filename, n, raw).value.doc == r.doc;
    case Ignored =>
    case SyntaxError =>
  }

  lemma {:induction false} RunExtends(r: P.Reader, filename: Option<string>, n: nat, lines: seq<string>)
    requires P.Consistent(r) && P.Run(r, filename, n, lines).Ok?
    ensures Extends(r.doc.entries, P.Run(r, filename, n, lines).value.doc.entries)
    decreases |lines|
  {
    if lines != [] {
      P.StepFollowsTable(r, filename, n, lines[0]);
      var r' := P.Step(r, filename, n, lines[0]).value;
      StepExtends(r, filename, n, lines[0]);
      RunExtends(r', filename, n + 1, lines[1..]);
      ExtendsTransitive(r.doc.entries, r'.doc.entries, P.Run(r', filename, n + 1, lines[1..]).value.doc.entries);
    }
  }

  /** The merged catalog keeps the base's entries, in place and with their
      locations, and adds only entries without locations. */
  lemma {:induction false} MergeExtendsBase(base: Po.PoFile, filename: string, existing: Option<seq<string>>)
    requires Po.Valid(base) && Merged(base, filename, existing).Ok?
    ensures Extends(base.entries, Merged(base, filename, existing).value.entries)
  {
    if existing.Some? {
      var d := Po.Clone(base);
      var r := P.Run(P.Fresh(d), Some(filename), 0, existing.value).value;
      RunExtends(P.Fresh(d), Some(filename), 0, existing.value);
      FlushExtends(r);
    }
  }

  /** Consequently, with pruning, the written catalog prints the base's
      entries and no entry that only the existing file had. */
  lemma {:induction false} PrunedMergeDropsObsolete(base: Po.PoFile, filename: string, existing: Option<seq<string>>, i: nat)
    requires Po.Valid(base) && Merged(base, filename, existing).Ok?
    requires |base.entries| <= i < |Merged(base, filename, existing).value.entries|
    ensures !PoDump.Emits(Merged(base, filename, existing).value.entries[i], true)
  {
    MergeExtendsBase(base, filename, existing);
  }

  // ---- The existing translations reach the merge ----

  /** `a`'s translations are all in `b`, with the same text. */
  predicate SubMap(a: map<nat, string>, b: map<nat, string>) {
    forall i :: i in a ==> i in b && b[i] == a[i]
  }

  /** The base gives message `id` a plural form. */
  predicate BasePlural(base: seq<Po.TranslationEntry>, id: string) {
    var j := Po.FindEntry(base, id);
    j.Some? && base[j.value].plural.Some?
  }

  /** What reading a file into a copy of the base (`merged`) keeps of
      reading it into a fresh document (`own`), for message `id`: the
      merged document has the message whenever the base or the file does,
      it has a plural form exactly when the file or the base gave one, and
      it has every translation the file gave, with the same text. */
  predicate CarriesId(base: seq<Po.TranslationEntry>, merged: seq<Po.TranslationEntry>, own: seq<Po.TranslationEntry>, id: string) {
    var jm := Po.FindEntry(merged, id);
    var jo := Po.FindEntry(own, id);
    (Po.FindEntry(base, id).Some? || jo.Some? ==> jm.Some?) &&
    (jm.Some? ==> (merged[jm.value].plural.Some? <==> (jo.Some? && own[jo.value].plural.Some?) || BasePlural(base, id))) &&
    (jo.Some? && jm.Some? ==> SubMap(own[jo.value].translations, merged[jm.value].translations))
  }

  ghost predicate Carries(base: seq<Po.TranslationEntry>, merged: seq<Po.TranslationEntry>, own: seq<Po.TranslationEntry>) {
    forall id :: CarriesId(base, merged, own, id)
  }

  /** Before reading, the copy of the base carries the empty document. */
  lemma {:induction false} CarriesAtStart(base: seq<Po.TranslationEntry>)
    ensures Carries(base, base, [])
  {
    forall id ensures CarriesId(base, base, [], id) {
      assert Po.FindEntry([], id).None?;
    }
  }

  /** Storing the same message into both documents keeps the relation. */
  lemma {:induction false} StoreCarries(base: seq<Po.TranslationEntry>, merged: Po.PoFile, own: Po.PoFile, state: P.State, p: P.Pending)
    requires Po.Valid(merged) && Po.Valid(own) && p.message.Some?
    requires state == P.AfterMsgStr ==> p.translated.Some?
    requires Carries(base, merged.entries, own.entries)
    ensures Carries(base, P.StoreEntry(merged, state, p).entries, P.StoreEntry(own, state, p).entries)
  {
    var target := Po.MsgId(p.message.value, p.context);
    forall id ensures CarriesId(base, P.StoreEntry(merged, state, p).entries, P.StoreEntry(own, state, p).entries, id) {
      assert CarriesId(base, merged.entries, own.entries, id);
      if id != target {
        P.StoreKeepsOthers(merged, state, p, id);
        P.StoreKeepsOthers(own, state, p, id);
      } else {
        StoreCarriesTarget(base, merged, own, state, p);
      }
    }
  }

  lemma {:induction false} StoreCarriesTarget(base: seq<Po.TranslationEntry>, merged: Po.PoFile, own: Po.PoFile, state: P.State, p: P.Pending)
    requires Po.Valid(merged) && Po.Valid(own) && p.message.Some?
    requires state == P.AfterMsgStr ==> p.translated.Some?
    requires CarriesId(base, merged.entries, own.entries, Po.MsgId(p.message.value, p.context))
    ensures CarriesId(base, P.StoreEntry(merged, state, p).entries, P.StoreEntry(own, state, p).entries, Po.MsgId(p.message.value, p.context))
  {
    var id := Po.MsgId(p.message.value, p.context);
    if Po.FindEntry(own.entries, id).Some? {
      StoreCarriesBoth(base, merged, own, state, p);
    } else if Po.FindEntry(merged.entries, id).Some? {
      StoreCarriesMergedOnly(base, merged, own, state, p);
    } else {
      P.StoredNewEntry(merged, state, p);
      P.StoredNewEntry(own, state, p);
      assert Po.FindEntry(base, id).None?;
    }
  }

  /** The message was in both documents. */
  lemma {:induction false} StoreCarriesBoth(base: seq<Po.TranslationEntry>, merged: Po.PoFile, own: Po.PoFile, state: P.State, p: P.Pending)
    requires Po.Valid(merged) && Po.Valid(own) && p.message.Some?
    requires state == P.AfterMsgStr ==> p.translated.Some?
    requires Po.FindEntry(own.entries, Po.MsgId(p.message.value, p.context)).Some?
    requires CarriesId(base, merged.entries, own.entries, Po.MsgId(p.message.value, p.context))
    ensures CarriesId(base, P.StoreEntry(merged, state, p).entries, P.StoreEntry(own, state, p).entries, Po.MsgId(p.message.value, p.context))
  {
    var id := Po.MsgId(p.message.value, p.context);
    var jm := Po.FindEntry(merged.entries, id).value;
    var jo := Po.FindEntry(own.entries, id).value;
    P.StoredKnownEntry(merged, state, p);
    P.StoredKnownEntry(own, state, p);
    var m, o := merged.entries[jm], own.entries[jo];
    var m', o' := P.StoreEntry(merged, state, p).entries[jm], P.StoreEntry(own, state, p).entries[jo];
    var t := P.Stored(state, p);
    assert m'.translations == m.translations + t && o'.translations == o.translations + t;
    assert SubMap(o'.translations, m'.translations);
  }

  /** The message was only in the copy of the base. */
  lemma {:induction false} StoreCarriesMergedOnly(base: seq<Po.TranslationEntry>, merged: Po.PoFile, own: Po.PoFile, state: P.State, p: P.Pending)
    requires Po.Valid(merged) && Po.Valid(own) && p.message.Some?
    requires state == P.AfterMsgStr ==> p.translated.Some?
    requires Po.FindEntry(own.entries, Po.MsgId(p.message.value, p.context)).None?
    requires Po.FindEntry(merged.entries, Po.MsgId(p.message.value, p.context)).Some?
    requires CarriesId(base, merged.entries, own.entries, Po.MsgId(p.message.value, p.context))
    ensures CarriesId(base, P.StoreEntry(merged, state, p).entries, P.StoreEntry(own, state, p).entries, Po.MsgId(p.message.value, p.context))
  {
    var id := Po.MsgId(p.message.value, p.context);
    var jm := Po.FindEntry(merged.entries, id).value;
    P.StoredKnownEntry(merged, state, p);
    P.StoredNewEntry(own, state, p);
    var m := merged.entries[jm];
    var m' := P.StoreEntry(merged, state, p).entries[jm];
    var o' := P.StoreEntry(own, state, p).entries[|own.entries|];
    var t := P.Stored(state, p);
    assert m'.translations == m.translations + t && o'.translations == t;
    assert SubMap(o'.translations, m'.translations);
  }

  /** Two readers in the same state with the same pending message, whose
      documents are related as above. */
  ghost predicate Twins(base: seq<Po.TranslationEntry>, r1: P.Reader, r2: P.Reader) {
    r1.state == r2.state && r1.pending == r2.pending && Carries(base, r1.doc.entries, r2.doc.entries)
  }

  /** Both succeed as twins, or both fail the same way. */
  ghost predicate TwinOutcomes(base: seq<Po.TranslationEntry>, a: Result<P.Reader, P.Failure>, b: Result<P.Reader, P.Failure>) {
    a.Ok? == b.Ok? && (a.Err? ==> a.error == b.error) && (a.Ok? ==> Twins(base, a.value, b.value))
  }

  lemma {:induction false} FlushTwins(base: seq<Po.TranslationEntry>, r1: P.Reader, r2: P.Reader)
    requires P.Consistent(r1) && P.Consistent(r2) && Twins(base, r1, r2)
    ensures TwinOutcomes(base, P.Flush(r1), P.Flush(r2))
  {
    var p := r1.pending;
    if p.message.Some? && p.message.value != [] {
      StoreCarries(base, r1.doc, r2.doc, r1.state, p);
    }
  }

  lemma {:induction false} KeywordTwins(base: seq<Po.TranslationEntry>, r1: P.Reader, r2: P.Reader, filename: Option<string>, n: nat,
                                      kw: LineGrammar.Keyword, index: Option<nat>, raw: string)
    requires P.Consistent(r1) && P.Consistent(r2) && Twins(base, r1, r2)
    ensures TwinOutcomes(base, P.StepKeyword(r1, filename, n, kw, index, raw), P.StepKeyword(r2, filename, n, kw, index, raw))
  {
    match kw
    case MsgCtxt => ContextTwins(base, r1, r2, filename, n, index, raw);
    case MsgId => MessageTwins(base, r1, r2, filename, n, index, raw);
    case MsgIdPlural =>
    case MsgStr => TranslationTwins(base, r1, r2, filename, n, index, raw);
  }

  lemma {:induction false} ContextTwins(base: seq<Po.TranslationEntry>, r1: P.Reader, r2: P.Reader, filename: Option<string>, n: nat,
                                      index: Option<nat>, raw: string)
    requires P.Consistent(r1) && P.Consistent(r2) && Twins(base, r1, r2)
    ensures TwinOutcomes(base, P.StepKeyword(r1, filename, n, LineGrammar.MsgCtxt, index, raw), P.StepKeyword(r2, filename, n, LineGrammar.MsgCtxt, index, raw))
  {
    if r1.state in {P.Start, P.AfterMsgStr, P.AfterMsgStrN} {
      FlushTwins(base, r1, r2);
      var c := P.Decode(raw, filename, n);
      if P.Flush(r1).Ok? && c.Ok? {
        var f1, f2 := P.Flush(r1).value, P.Flush(r2).value;
        assert P.StepKeyword(r1, filename, n, LineGrammar.MsgCtxt, index, raw) == Ok(P.Reader(P.AfterMsgCtxt, f1.pending.(context := Some(c.value)), f1.doc));
        assert P.StepKeyword(r2, filename, n, LineGrammar.MsgCtxt, index, raw) == Ok(P.Reader(P.AfterMsgCtxt, f2.pending.(context := Some(c.value)), f2.doc));
      }
    }
  }

  lemma {:induction false} MessageTwins(base: seq<Po.TranslationEntry>, r1: P.Reader, r2: P.Reader, filename: Option<string>, n: nat,
                                      index: Option<nat>, raw: string)
    requires P.Consistent(r1) && P.Consistent(r2) && Twins(base, r1, r2)
    ensures TwinOutcomes(base, P.StepKeyword(r1, filename, n, LineGrammar.MsgId, index, raw), P.StepKeyword(r2, filename, n, LineGrammar.MsgId, index, raw))
  {
    if r1.state != P.AfterMsgCtxt {
      FlushTwins(base, r1, r2);
    }
  }

  lemma {:induction false} TranslationTwins(base: seq<Po.TranslationEntry>, r1: P.Reader, r2: P.Reader, filename: Option<string>, n: nat,
                                      index: Option<nat>, raw: string)
    requires P.Consistent(r1) && P.Consistent(r2) && Twins(base, r1, r2)
    ensures TwinOutcomes(base, P.StepKeyword(r1, filename, n, LineGrammar.MsgStr, index, raw), P.StepKeyword(r2, filename, n, LineGrammar.MsgStr, index, raw))
  {
  }

  lemma {:induction false} StepTwins(base: seq<Po.TranslationEntry>, r1: P.Reader, r2: P.Reader, filename: Option<string>, n: nat, line: string)
    requires P.Consistent(r1) && P.Consistent(r2) && Twins(base, r1, r2)
    ensures TwinOutcomes(base, P.Step(r1, filename, n, line), P.Step(r2, filename, n, line))
  {
    match LineGrammar.Classify(line)
    case KeywordLine(kw, index, raw) => KeywordTwins(base, r1, r2, filename, n, kw, index, raw);
    case Continuation(raw) =>
    case Ignored =>
    case SyntaxError =>
  }

  lemma {:induction false} RunTwins(base: seq<Po.TranslationEntry>, r1: P.Reader, r2: P.Reader, filename: Option<string>, n: nat, lines: seq<string>)
    requires P.Consistent(r1) && P.Consistent(r2) && Twins(base, r1, r2)
    ensures TwinOutcomes(base, P.Run(r1, filename, n, lines), P.Run(r2, filename, n, lines))
    decreases |lines|
  {
    if lines != [] {
      P.StepFollowsTable(r1, filename, n, lines[0]);
      P.StepFollowsTable(r2, filename, n, lines[0]);
      StepTwins(base, r1, r2, filename, n, lines[0]);
      if P.Step(r1, filename, n, lines[0]).Ok? {
        RunTwins(base, P.Step(r1, filename, n, lines[0]).value, P.Step(r2, filename, n, lines[0]).value, filename, n + 1, lines[1..]);
      }
    }
  }

  lemma {:induction false} FinishTwins(base: seq<Po.TranslationEntry>, r1: P.Reader, r2: P.Reader, filename: Option<string>)
    requires P.Consistent(r1) && P.Consistent(r2) && Twins(base, r1, r2)
    ensures P.Finish(r1, filename).Ok? == P.Finish(r2, filename).Ok?
    ensures P.Finish(r1, filename).Err? ==> P.Finish(r1, filename).error == P.Finish(r2, filename).error
    ensures P.Finish(r1, filename).Ok? ==> Carries(base, P.Finish(r1, filename).value.entries, P.Finish(r2, filename).value.entries)
  {
    FlushTwins(base, r1, r2);
  }

  /** A key of the file's own catalog is in the merged catalog with the
      same text, unless it is a singular key for a message the base gives
      a plural form. */
  lemma {:induction false} CarriedKey(base: seq<Po.TranslationEntry>, merged: Po.PoFile, own: Po.PoFile, k: Po.CatalogKey)
    requires Po.Valid(merged) && Po.Valid(own) && Carries(base, merged.entries, own.entries)
    requires k in Po.GetCatalog(own) && (k.Single? ==> !BasePlural(base, k.msgid))
    ensures k in Po.GetCatalog(merged) && Po.GetCatalog(merged)[k] == Po.GetCatalog(own)[k]
  {
    Po.CatalogKeys(own, k);
    var i :| 0 <= i < |own.entries| && k in Po.EntryCatalog(own.entries[i]);
    Po.EntryCatalogKeys(own.entries[i], k);
    assert Po.FindEntry(own.entries, k.msgid) == Some(i);
    assert CarriesId(base, merged.entries, own.entries, k.msgid);
    var jm := Po.FindEntry(merged.entries, k.msgid).value;
    Po.EntryCatalogKeys(merged.entries[jm], k);
    Po.CatalogValue(own.entries, i, k);
    Po.CatalogValue(merged.entries, jm, k);
  }

  /** Reading the existing file into a copy of the base fails exactly when
      reading it alone does, with the same failure; and every translation
      the file holds reaches the merged catalog with its text, except a
      singular translation of a message the base gives a plural form. */
  lemma {:induction false} MergeKeepsTranslations(base: Po.PoFile, filename: string, lines: seq<string>)
    requires Po.Valid(base)
    ensures Merged(base, filename, Some(lines)).Ok? <==> P.ParseCatalog(Some(filename), lines).Ok?
    ensures Merged(base, filename, Some(lines)).Err? ==>
      Merged(base, filename, Some(lines)).error == P.ParseCatalog(Some(filename), lines).error
    ensures Merged(base, filename, Some(lines)).Ok? ==>
      forall k :: k in P.ParseCatalog(Some(filename), lines).value && (k.Single? ==> !BasePlural(base.entries, k.msgid)) ==>
        k in Po.GetCatalog(Merged(base, filename, Some(lines)).value) &&
        Po.GetCatalog(Merged(base, filename, Some(lines)).value)[k] == P.ParseCatalog(Some(filename), lines).value[k]
  {
    var r1, r2 := P.Fresh(Po.Clone(base)), P.Fresh(Po.Empty());
    CarriesAtStart(base.entries);
    RunTwins(base.entries, r1, r2, Some(filename), 0, lines);
    var a, b := P.Run(r1, Some(filename), 0, lines), P.Run(r2, Some(filename), 0, lines);
    if a.Ok? {
      FinishTwins(base.entries, a.value, b.value, Some(filename));
      var f1, f2 := P.Finish(a.value, Some(filename)), P.Finish(b.value, Some(filename));
      if f1.Ok? {
        forall k | k in Po.GetCatalog(f2.value) && (k.Single? ==> !BasePlural(base.entries, k.msgid))
          ensures k in Po.GetCatalog(f1.value) && Po.GetCatalog(f1.value)[k] == Po.GetCatalog(f2.value)[k]
        {
          CarriedKey(base.entries, f1.value, f2.value, k);
        }
      }
    }
  }
}
