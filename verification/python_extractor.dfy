/** The Python message extractor's name resolution, over an abstract
    syntax tree: which names denote Django's translation functions (after
    imports, with scopes opened by function definitions), and which calls
    add an entry to the catalog, with the call's line as its location. */
module PythonExtractor {
  import opened Wrappers
  import Po

  // ---- Syntax ----

  /** `import a.b.c as d` / `from m import a as d`: a name and its
      optional local name. */
  datatype Alias = Alias(name: string, asname: Option<string>)

  /** The syntax the extractor looks at; every other node is `Other`, with
      its child nodes in field order. */
  datatype Node =
    | Name(id: string)
    | Attribute(value: Node, attr: string)
    | Str(s: string)
    | Call(func: Node, args: seq<Node>, others: seq<Node>, line: int)
    | Import(names: seq<Alias>)
    | ImportFrom(source: Option<string>, names: seq<Alias>, level: nat)
    | FunctionDef(fields: seq<Node>)
    | Other(fields: seq<Node>)

  /** The name a call's function expression spells: a name, or names
      joined by dots through attribute accesses; none for anything else.
      `suffix` is what the outer accesses have already spelled. */
  function DottedName(n: Node, suffix: string): (r: Option<string>)
  {
    match n
    case Name(id) => Some(id + suffix)
    case Attribute(v, attr) => DottedName(v, "." + attr + suffix)
    case _ => None
  }

  /** An attribute access appends a dot and the attribute to the name of
      the object; it has a name exactly when the object has one. */
  lemma {:induction false} DottedAttribute(v: Node, attr: string, suffix: string)
    ensures DottedName(Attribute(v, attr), suffix).Some? <==> DottedName(v, "").Some?
    ensures DottedName(v, "").Some? ==> DottedName(Attribute(v, attr), suffix).value == DottedName(v, "").value + "." + attr + suffix
  {
    DottedSuffix(v, "." + attr + suffix);
  }

  /** The suffix is appended to the name of the expression. */
  lemma {:induction false} DottedSuffix(n: Node, suffix: string)
    ensures DottedName(n, suffix).Some? <==> DottedName(n, "").Some?
    ensures DottedName(n, suffix).Some? ==> DottedName(n, suffix).value == DottedName(n, "").value + suffix
  {
    match n
    case Name(id) =>
      assert id + "" == id;
    case Attribute(v, attr) =>
      DottedSuffix(v, "." + attr + suffix);
      DottedSuffix(v, "." + attr + "");
      assert "." + attr + "" == "." + attr;
      assert "." + attr + suffix == ("." + attr) + suffix;
    case _ =>
  }

  /** Whether the first `count` arguments are string literals. */
  predicate FirstArgsAreStrings(args: seq<Node>, count: nat) {
    |args| >= count && forall i :: 0 <= i < count ==> args[i].Str?
  }

  // ---- Translation functions ----

  /** The four signatures of Django's translation functions. */
  datatype Kind = Gettext | Pgettext | Ngettext | Npgettext

  const GettextFunctions: seq<string> := ["gettext", "gettext_lazy", "gettext_noop", "ugettext", "ugettext_lazy", "ugettext_noop"]
  const PgettextFunctions: seq<string> := ["pgettext", "pgettext_lazy"]
  const NgettextFunctions: seq<string> := ["ngettext", "ungettext", "ngettext_lazy", "ungettext_lazy"]
  const NpgettextFunctions: seq<string> := ["npgettext", "npgettext_lazy"]

  /** The signature of one of Django's translation functions, by its name
      in the translation module. */
  function KindOf(f: string): (r: Option<Kind>)
    ensures r == Some(Gettext) <==> f in GettextFunctions
    ensures r == Some(Pgettext) <==> f in PgettextFunctions
    ensures r == Some(Ngettext) <==> f in NgettextFunctions
    ensures r == Some(Npgettext) <==> f in NpgettextFunctions
  {
    if f in GettextFunctions then Some(Gettext)
    else if f in PgettextFunctions then Some(Pgettext)
    else if f in NgettextFunctions then Some(Ngettext)
    else if f in NpgettextFunctions then Some(Npgettext)
    else None
  }

  /** How many leading arguments are the entry's strings: the message,
      with a context before it and a plural after it as the signature
      has them. */
  function Arity(k: Kind): nat {
    match k
    case Gettext => 1
    case Pgettext => 2
    case Ngettext => 2
    case Npgettext => 3
  }

  /** What a call adds to the catalog. */
  datatype Message = Message(message: string, plural: Option<string>, context: Option<string>)

  /** The entry of a call of signature `k`, when its leading arguments are
      literals: gettext(message), pgettext(context, message),
      ngettext(message, plural, n), npgettext(context, message, plural,
      n). */
  function CallEntry(k: Kind, args: seq<Node>): (r: Option<Message>)
    ensures r.Some? <==> FirstArgsAreStrings(args, Arity(k))
    ensures r.Some? ==> r.value.message == args[if k in {Gettext, Ngettext} then 0 else 1].s
    ensures r.Some? ==> (r.value.context.Some? <==> k in {Pgettext, Npgettext})
    ensures r.Some? ==> (r.value.plural.Some? <==> k in {Ngettext, Npgettext})
  {
    if !FirstArgsAreStrings(args, Arity(k)) then None
    else
      match k
      case Gettext => Some(Message(args[0].s, None, None))
      case Pgettext => Some(Message(args[1].s, None, Some(args[0].s)))
      case Ngettext => Some(Message(args[0].s, Some(args[1].s), None))
      case Npgettext => Some(Message(args[1].s, Some(args[2].s), Some(args[0].s)))
  }

  /** What the extractor as written does with a call: the plural forms
      check one literal fewer than they read, so a plural argument that is
      missing or not a literal raises instead of skipping the call. */
  datatype CallFault = MissingArgument | NotAString

  function CallEntryAsWritten(k: Kind, args: seq<Node>): (r: Result<Option<Message>, CallFault>)
    ensures r.Err? ==> k in {Ngettext, Npgettext}
  {
    match k
    case Gettext => Ok(if FirstArgsAreStrings(args, 1) then Some(Message(args[0].s, None, None)) else None)
    case Pgettext => Ok(if FirstArgsAreStrings(args, 2) then Some(Message(args[1].s, None, Some(args[0].s))) else None)
    case Ngettext =>
      if !FirstArgsAreStrings(args, 1) then Ok(None)
      else if |args| < 2 then Err(MissingArgument)
      else if !args[1].Str? then Err(NotAString)
      else Ok(Some(Message(args[0].s, Some(args[1].s), None)))
    case Npgettext =>
      if !FirstArgsAreStrings(args, 2) then Ok(None)
      else if |args| < 3 then Err(MissingArgument)
      else if !args[2].Str? then Err(NotAString)
      else Ok(Some(Message(args[1].s, Some(args[2].s), Some(args[0].s))))
  }

  /** Wherever the extractor as written does not raise, it adds the same
      entry as the corrected one; it raises exactly on plural calls whose
      leading literals stop just before the plural. */
  lemma {:induction false} CallEntryAgrees(k: Kind, args: seq<Node>)
    ensures CallEntryAsWritten(k, args).Ok? ==> CallEntryAsWritten(k, args).value == CallEntry(k, args)
    ensures CallEntryAsWritten(k, args).Err? <==>
      k in {Ngettext, Npgettext} && FirstArgsAreStrings(args, Arity(k) - 1) && !FirstArgsAreStrings(args, Arity(k))
  {
    if k == Ngettext && FirstArgsAreStrings(args, 1) && |args| >= 2 && args[1].Str? {
      assert FirstArgsAreStrings(args, 2);
    }
    if k == Npgettext && FirstArgsAreStrings(args, 2) && |args| >= 3 && args[2].Str? {
      assert FirstArgsAreStrings(args, 3);
    }
  }

  /** `ngettext("apple", plural, n)` with a variable plural: the extractor
      as written raises, the corrected one skips the call. */
  lemma {:induction false} PluralVariableCrashes()
    ensures CallEntryAsWritten(Ngettext, [Str("apple"), Name("plural"), Name("n")]) == Err(NotAString)
    ensures CallEntry(Ngettext, [Str("apple"), Name("plural"), Name("n")]) == None
  {
    assert ![Str("apple"), Name("plural"), Name("n")][1].Str?;
  }

  // ---- Scopes of aliases ----

  /** The alias tables from the module's (first) to the innermost
      function's (last). */
  type Scopes = s: seq<map<string, Kind>> | |s| > 0 witness [map[]]

  /** The innermost binding of `name`, if any. */
  function Lookup(scopes: seq<map<string, Kind>>, name: string): (r: Option<Kind>)
    ensures r.None? <==> forall i :: 0 <= i < |scopes| ==> name !in scopes[i]
    decreases |scopes|
  {
    if scopes == [] then None
    else
      var inner := scopes[|scopes| - 1];
      if name in inner then Some(inner[name])
      else
        var outer := scopes[..|scopes| - 1];
        assert forall i :: 0 <= i < |outer| ==> outer[i] == scopes[i];
        Lookup(outer, name)
  }

  /** Binds a name in the innermost scope. */
  function Bind(scopes: Scopes, name: string, k: Kind): (r: Scopes)
    ensures |r| == |scopes| && r[..|r| - 1] == scopes[..|scopes| - 1]
  {
    scopes[..|scopes| - 1] + [scopes[|scopes| - 1][name := k]]
  }

  /** A binding is seen by lookups of its name until the scope is left,
      and leaves every other name's lookup alone. */
  lemma {:induction false} LookupAfterBind(scopes: Scopes, name: string, k: Kind, other: string)
    ensures Lookup(Bind(scopes, name, k), name) == Some(k)
    ensures other != name ==> Lookup(Bind(scopes, name, k), other) == Lookup(scopes, other)
  {
    var r := Bind(scopes, name, k);
    assert r[..|r| - 1] == scopes[..|scopes| - 1];
  }

  /** A function body's bindings shadow the enclosing ones; leaving the
      body restores the enclosing scopes untouched. */
  lemma {:induction false} InnerShadows(scopes: Scopes, inner: map<string, Kind>, name: string)
    ensures name in inner ==> Lookup(scopes + [inner], name) == Some(inner[name])
    ensures name !in inner ==> Lookup(scopes + [inner], name) == Lookup(scopes, name)
  {
    assert (scopes + [inner])[..|scopes|] == scopes;
  }

  /** The local name of an imported thing. */
  function Visible(a: Alias): string {
    if a.asname.Some? then a.asname.value else a.name
  }

  /** Binds `<prefix>.<f>` for every name `f` of `functions`, in
      order. */
  function BindEach(scopes: Scopes, prefix: string, functions: seq<string>, k: Kind): (r: Scopes)
    ensures |r| == |scopes| && r[..|r| - 1] == scopes[..|scopes| - 1]
    ensures forall f :: f in functions ==> Lookup(r, prefix + "." + f) == Some(k)
    decreases |functions|
  {
    if functions == [] then scopes
    else
      var n := |functions| - 1;
      var s := BindEach(scopes, prefix, functions[..n], k);
      var r := Bind(s, prefix + "." + functions[n], k);
      forall f | f in functions ensures Lookup(r, prefix + "." + f) == Some(k) {
        LookupAfterBind(s, prefix + "." + functions[n], k, prefix + "." + f);
        if f != functions[n] {
          assert f in functions[..n];
        }
      }
      r
  }

  /** Names other than `<prefix>.<f>` for `f` in `functions` resolve as
      before. */
  lemma {:induction false} BindEachOthers(scopes: Scopes, prefix: string, functions: seq<string>, k: Kind, x: string)
    requires forall f :: f in functions ==> x != prefix + "." + f
    ensures Lookup(BindEach(scopes, prefix, functions, k), x) == Lookup(scopes, x)
    decreases |functions|
  {
    if functions != [] {
      var n := |functions| - 1;
      var s := BindEach(scopes, prefix, functions[..n], k);
      assert forall f :: f in functions[..n] ==> f in functions;
      BindEachOthers(scopes, prefix, functions[..n], k, x);
      LookupAfterBind(s, prefix + "." + functions[n], k, x);
    }
  }

  /** Importing the translation module under the local name `m` binds
      `m.f` for each of the fourteen translation functions `f`. */
  function BindModule(scopes: Scopes, m: string): (r: Scopes)
    ensures |r| == |scopes| && r[..|r| - 1] == scopes[..|scopes| - 1]
  {
    var s1 := BindEach(scopes, m, GettextFunctions, Gettext);
    var s2 := BindEach(s1, m, PgettextFunctions, Pgettext);
    var s3 := BindEach(s2, m, NgettextFunctions, Ngettext);
    BindEach(s3, m, NpgettextFunctions, Npgettext)
  }

  /** Different function names give different dotted names. */
  lemma {:induction false} DottedInjective(m: string, f: string, g: string)
    requires m + "." + f == m + "." + g
    ensures f == g
  {
    assert f == (m + "." + f)[|m| + 1..];
    assert g == (m + "." + g)[|m| + 1..];
  }

  /** Binding `m.g` for every `g` of `functions` leaves `m.f` alone when
      `f` is not one of them. */
  lemma {:induction false} BindEachLeaves(scopes: Scopes, m: string, functions: seq<string>, k: Kind, f: string)
    requires f !in functions
    ensures Lookup(BindEach(scopes, m, functions, k), m + "." + f) == Lookup(scopes, m + "." + f)
  {
    forall g | g in functions ensures m + "." + f != m + "." + g {
      if m + "." + f == m + "." + g {
        DottedInjective(m, f, g);
      }
    }
    BindEachOthers(scopes, m, functions, k, m + "." + f);
  }

  /** After importing the module as `m`, `m.f` resolves to the signature
      of `f` for each translation function `f`. */
  lemma {:induction false} ModuleBinding(scopes: Scopes, m: string, f: string)
    requires KindOf(f).Some?
    ensures Lookup(BindModule(scopes, m), m + "." + f) == KindOf(f)
  {
    var s1 := BindEach(scopes, m, GettextFunctions, Gettext);
    var s2 := BindEach(s1, m, PgettextFunctions, Pgettext);
    var s3 := BindEach(s2, m, NgettextFunctions, Ngettext);
    match KindOf(f).value
    case Gettext =>
      BindEachLeaves(s1, m, PgettextFunctions, Pgettext, f);
      BindEachLeaves(s2, m, NgettextFunctions, Ngettext, f);
      BindEachLeaves(s3, m, NpgettextFunctions, Npgettext, f);
    case Pgettext =>
      BindEachLeaves(s2, m, NgettextFunctions, Ngettext, f);
      BindEachLeaves(s3, m, NpgettextFunctions, Npgettext, f);
    case Ngettext =>
      BindEachLeaves(s3, m, NpgettextFunctions, Npgettext, f);
    case Npgettext =>
  }

  /** Importing the module as `m` leaves every name that is not `m.f`
      for a translation function `f` resolving as before. */
  lemma {:induction false} ModuleLeaves(scopes: Scopes, m: string, x: string)
    requires forall f :: x == m + "." + f ==> KindOf(f).None?
    ensures Lookup(BindModule(scopes, m), x) == Lookup(scopes, x)
  {
    var s1 := BindEach(scopes, m, GettextFunctions, Gettext);
    var s2 := BindEach(s1, m, PgettextFunctions, Pgettext);
    var s3 := BindEach(s2, m, NgettextFunctions, Ngettext);
    forall g | g in GettextFunctions ensures x != m + "." + g { assert KindOf(g).Some?; }
    BindEachOthers(scopes, m, GettextFunctions, Gettext, x);
    forall g | g in PgettextFunctions ensures x != m + "." + g { assert KindOf(g).Some?; }
    BindEachOthers(s1, m, PgettextFunctions, Pgettext, x);
    forall g | g in NgettextFunctions ensures x != m + "." + g { assert KindOf(g).Some?; }
    BindEachOthers(s2, m, NgettextFunctions, Ngettext, x);
    forall g | g in NpgettextFunctions ensures x != m + "." + g { assert KindOf(g).Some?; }
    BindEachOthers(s3, m, NpgettextFunctions, Npgettext, x);
  }

  /** The state of the walk: the alias scopes and the catalog. */
  datatype Walk = Walk(scopes: Scopes, doc: Po.PoFile)

  /** `import a.b [as m]`: only the translation module binds anything. */
  function VisitImport(scopes: Scopes, names: seq<Alias>): (r: Scopes)
    ensures |r| == |scopes| && r[..|r| - 1] == scopes[..|scopes| - 1]
    decreases |names|
  {
    if names == [] then scopes
    else
      var a := names[0];
      var s := if a.name == "django.utils.translation" then BindModule(scopes, Visible(a)) else scopes;
      VisitImport(s, names[1..])
  }

  /** `from m import a [as b]` at level 0: names of translation functions
      from the translation module, or the translation module itself from
      its package, bind their local names; relative imports bind
      nothing. */
  function VisitImportFrom(scopes: Scopes, source: Option<string>, names: seq<Alias>, level: nat): (r: Scopes)
    ensures |r| == |scopes| && r[..|r| - 1] == scopes[..|scopes| - 1]
    ensures level != 0 ==> r == scopes
    decreases |names|
  {
    if level != 0 || names == [] then scopes
    else
      var a := names[0];
      var s :=
        if source == Some("django.utils.translation") then
          match KindOf(a.name)
          case Some(k) => Bind(scopes, Visible(a), k)
          case None => scopes
        else if source == Some("django.utils") && a.name == "translation" then
          BindModule(scopes, Visible(a))
        else scopes;
      VisitImportFrom(s, source, names[1..], level)
  }

  /** The walk only ever adds to the catalog: entries keep their place and
      message id, and their locations are only appended to. */
  predicate Grows(a: seq<Po.TranslationEntry>, b: seq<Po.TranslationEntry>) {
    |a| <= |b| &&
    forall i :: 0 <= i < |a| ==>
      Po.EntryId(b[i]) == Po.EntryId(a[i]) && a[i].locations <= b[i].locations
  }

  lemma {:induction false} GrowsTransitive(a: seq<Po.TranslationEntry>, b: seq<Po.TranslationEntry>, c: seq<Po.TranslationEntry>)
    requires Grows(a, b) && Grows(b, c)
    ensures Grows(a, c)
  {
  }

  /** Adds the entry of a resolved call with the call's location. */
  function AddCall(doc: Po.PoFile, m: Message, filename: string, line: int): (r: Po.PoFile)
    requires Po.Valid(doc)
    ensures Po.Valid(r) && r.headers == doc.headers && Grows(doc.entries, r.entries)
    ensures var j := Po.FindEntry(r.entries, Po.MsgId(m.message, m.context));
      j.Some? && Po.Location(filename, line) in r.entries[j.value].locations
  {
    var (d, j) := Po.AddEntry(doc, m.message, m.plural, m.context);
    var e := Po.AddLocation(d.entries[j], filename, line);
    var r := Po.SetEntry(d, j, e);
    assert Grows(doc.entries, d.entries);
    assert Grows(d.entries, r.entries);
    GrowsTransitive(doc.entries, d.entries, r.entries);
    assert Po.FindEntry(r.entries, Po.MsgId(m.message, m.context)) == Some(j);
    assert e.locations[|d.entries[j].locations|] == Po.Location(filename, line);
    r
  }

  /** The catalog after a call's own entry, before its children are
      visited: when the called expression is a dotted name bound to a
      translation function and the call's leading arguments are literals,
      the message is recorded with the call's location; otherwise nothing
      changes. */
  function CallDoc(scopes: Scopes, doc: Po.PoFile, func: Node, args: seq<Node>, filename: string, line: int): (r: Po.PoFile)
    requires Po.Valid(doc)
    ensures Po.Valid(r) && r.headers == doc.headers && Grows(doc.entries, r.entries)
    ensures var name := DottedName(func, "");
      name.Some? && Lookup(scopes, name.value).Some? && CallEntry(Lookup(scopes, name.value).value, args).Some? ==>
        var m := CallEntry(Lookup(scopes, name.value).value, args).value;
        var j := Po.FindEntry(r.entries, Po.MsgId(m.message, m.context));
        j.Some? && Po.Location(filename, line) in r.entries[j.value].locations
    ensures var name := DottedName(func, "");
      (name.None? || Lookup(scopes, name.value).None? || CallEntry(Lookup(scopes, name.value).value, args).None?) ==> r == doc
  {
    var name := DottedName(func, "");
    var kind := if name.Some? then Lookup(scopes, name.value) else None;
    if kind.Some? && CallEntry(kind.value, args).Some? then AddCall(doc, CallEntry(kind.value, args).value, filename, line)
    else doc
  }

  /** Visits one node: imports bind, a function definition walks its
      fields in a scope of its own, a call to a resolved translation
      function with literal leading arguments adds its entry; every node
      then has its children walked. */
  function Visit(n: Node, filename: string, w: Walk): (r: Walk)
    requires Po.Valid(w.doc)
    ensures Po.Valid(r.doc) && r.doc.headers == w.doc.headers && Grows(w.doc.entries, r.doc.entries)
    ensures |r.scopes| == |w.scopes| && r.scopes[..|r.scopes| - 1] == w.scopes[..|w.scopes| - 1]
    ensures n.FunctionDef? ==> r.scopes == w.scopes
    ensures n.Call? ==> Grows(CallDoc(w.scopes, w.doc, n.func, n.args, filename, n.line).entries, r.doc.entries)
    decreases n, 1
  {
    match n
    case Import(names) => Walk(VisitImport(w.scopes, names), w.doc)
    case ImportFrom(m, names, level) => Walk(VisitImportFrom(w.scopes, m, names, level), w.doc)
    case FunctionDef(_) => VisitFunctionDef(n, filename, w)
    case Call(_, _, _, _) => VisitCall(n, filename, w)
    case Attribute(v, _) => Visit(v, filename, w)
    case Other(fields) => VisitAll(fields, filename, w)
    case Name(_) => w
    case Str(_) => w
  }

  /** Visits a function definition: its fields are walked in a fresh
      innermost scope, which is dropped afterwards. */
  function VisitFunctionDef(n: Node, filename: string, w: Walk): (r: Walk)
    requires Po.Valid(w.doc) && n.FunctionDef?
    ensures Po.Valid(r.doc) && r.doc.headers == w.doc.headers && Grows(w.doc.entries, r.doc.entries)
    ensures r.scopes == w.scopes
    decreases n, 0
  {
    var inner := VisitAll(n.fields, filename, Walk(w.scopes + [map[]], w.doc));
    Walk(w.scopes, inner.doc)
  }

  /** Visits a call: its own entry first, then the called expression, the
      positional arguments and the remaining fields. */
  function VisitCall(n: Node, filename: string, w: Walk): (r: Walk)
    requires Po.Valid(w.doc) && n.Call?
    ensures Po.Valid(r.doc) && r.doc.headers == w.doc.headers
    ensures Grows(CallDoc(w.scopes, w.doc, n.func, n.args, filename, n.line).entries, r.doc.entries)
    ensures |r.scopes| == |w.scopes| && r.scopes[..|r.scopes| - 1] == w.scopes[..|w.scopes| - 1]
    decreases n, 0
  {
    var doc := CallDoc(w.scopes, w.doc, n.func, n.args, filename, n.line);
    var w1 := Visit(n.func, filename, Walk(w.scopes, doc));
    var w2 := VisitAll(n.args, filename, w1);
    var w3 := VisitAll(n.others, filename, w2);
    GrowsTransitive(doc.entries, w1.doc.entries, w2.doc.entries);
    GrowsTransitive(doc.entries, w2.doc.entries, w3.doc.entries);
    w3
  }

  /** Visits nodes in order. */
  function VisitAll(ns: seq<Node>, filename: string, w: Walk): (r: Walk)
    requires Po.Valid(w.doc)
    ensures Po.Valid(r.doc) && r.doc.headers == w.doc.headers && Grows(w.doc.entries, r.doc.entries)
    ensures |r.scopes| == |w.scopes| && r.scopes[..|r.scopes| - 1] == w.scopes[..|w.scopes| - 1]
    decreases ns, 0
  {
    if ns == [] then w
    else
      var w1 := Visit(ns[0], filename, w);
      var r := VisitAll(ns[1..], filename, w1);
      GrowsTransitive(w.doc.entries, w1.doc.entries, r.doc.entries);
      r
  }

  /** Extracts the messages of a module into `doc`, naming the file
      `filename` in locations: the walk starts with one empty module
      scope. */
  function ExtractMessages(tree: Node, filename: string, doc: Po.PoFile): (r: Po.PoFile)
    requires Po.Valid(doc)
    ensures Po.Valid(r) && r.headers == doc.headers && Grows(doc.entries, r.entries)
  {
    Visit(tree, filename, Walk([map[]], doc)).doc
  }

  /** A call whose function resolves to a translation function and whose
      leading arguments are literals leaves its entry in the catalog with
      the call's location, whatever its arguments contain. */
  lemma {:induction false} ResolvedCallExtracted(n: Node, filename: string, w: Walk)
    requires Po.Valid(w.doc) && n.Call?
    requires DottedName(n.func, "").Some? && Lookup(w.scopes, DottedName(n.func, "").value).Some?
    requires CallEntry(Lookup(w.scopes, DottedName(n.func, "").value).value, n.args).Some?
    ensures var m := CallEntry(Lookup(w.scopes, DottedName(n.func, "").value).value, n.args).value;
      var r := Visit(n, filename, w).doc;
      var j := Po.FindEntry(r.entries, Po.MsgId(m.message, m.context));
      j.Some? && Po.Location(filename, n.line) in r.entries[j.value].locations
  {
    var m := CallEntry(Lookup(w.scopes, DottedName(n.func, "").value).value, n.args).value;
    var d := CallDoc(w.scopes, w.doc, n.func, n.args, filename, n.line);
    var id := Po.MsgId(m.message, m.context);
    var j := Po.FindEntry(d.entries, id).value;
    var r := Visit(n, filename, w).doc;
    assert Grows(d.entries, r.entries);
    assert Po.EntryId(r.entries[j]) == id;
    assert d.entries[j].locations <= r.entries[j].locations;
  }

  // ---- Which calls the walk extracts ----

  /** The message a call adds when the walk reaches it with these scopes:
      its called expression is a dotted name bound to a translation
      function and its leading arguments are literals. */
  function Resolved(scopes: seq<map<string, Kind>>, c: Node): Option<Message> {
    if c.Call? && DottedName(c.func, "").Some? && Lookup(scopes, DottedName(c.func, "").value).Some? then
      CallEntry(Lookup(scopes, DottedName(c.func, "").value).value, c.args)
    else None
  }

  /** The catalog has an entry for the message, with the location among
      the entry's locations. */
  predicate Recorded(doc: Po.PoFile, m: Message, loc: Po.Location) {
    var j := Po.FindEntry(doc.entries, Po.MsgId(m.message, m.context));
    j.Some? && loc in doc.entries[j.value].locations
  }

  /** What the catalog records stays recorded as it grows. */
  lemma {:induction false} GrowsKeepsRecorded(a: Po.PoFile, b: Po.PoFile, m: Message, loc: Po.Location)
    requires Po.Valid(b) && Grows(a.entries, b.entries) && Recorded(a, m, loc)
    ensures Recorded(b, m, loc)
  {
    var id := Po.MsgId(m.message, m.context);
    var j := Po.FindEntry(a.entries, id).value;
    assert Po.EntryId(b.entries[j]) == id;
    var t :| 0 <= t < |a.entries[j].locations| && a.entries[j].locations[t] == loc;
    assert b.entries[j].locations[t] == loc;
  }

  /** Visiting `ns` is visiting its first `i` nodes, then the rest from
      where they left the walk. */
  lemma {:induction false} VisitAllSplit(ns: seq<Node>, filename: string, w: Walk, i: nat)
    requires Po.Valid(w.doc) && i <= |ns|
    ensures VisitAll(ns, filename, w) == VisitAll(ns[i..], filename, VisitAll(ns[..i], filename, w))
    decreases i
  {
    if i == 0 {
      assert ns[..0] == [] && ns[0..] == ns;
    } else {
      var w1 := Visit(ns[0], filename, w);
      assert ns[..i][0] == ns[0] && ns[..i][1..] == ns[1..][..i - 1];
      assert ns[1..][i - 1..] == ns[i..];
      VisitAllSplit(ns[1..], filename, w1, i - 1);
    }
  }

  /** What the visit of `ns[i]` records, from where the nodes before it
      left the walk, is recorded after the whole sequence. */
  lemma {:induction false} VisitAllKeeps(ns: seq<Node>, filename: string, w: Walk, i: nat, m: Message, loc: Po.Location)
    requires Po.Valid(w.doc) && i < |ns|
    requires Recorded(Visit(ns[i], filename, VisitAll(ns[..i], filename, w)).doc, m, loc)
    ensures Recorded(VisitAll(ns, filename, w).doc, m, loc)
  {
    var wi := VisitAll(ns[..i], filename, w);
    var v := Visit(ns[i], filename, wi);
    VisitAllSplit(ns, filename, w, i);
    assert ns[i..][0] == ns[i] && ns[i..][1..] == ns[i + 1..];
    assert VisitAll(ns[i..], filename, wi) == VisitAll(ns[i + 1..], filename, v);
    GrowsKeepsRecorded(v.doc, VisitAll(ns, filename, w).doc, m, loc);
  }

  /** A call among a sequence of nodes (the statements of a body, the
      arguments of a call) that resolves with the scopes the nodes before
      it leave is extracted with its line. */
  lemma {:induction false} VisitAllExtracts(ns: seq<Node>, filename: string, w: Walk, i: nat)
    requires Po.Valid(w.doc) && i < |ns|
    requires Resolved(VisitAll(ns[..i], filename, w).scopes, ns[i]).Some?
    ensures Recorded(VisitAll(ns, filename, w).doc, Resolved(VisitAll(ns[..i], filename, w).scopes, ns[i]).value,
                     Po.Location(filename, ns[i].line))
  {
    var wi := VisitAll(ns[..i], filename, w);
    ResolvedCallExtracted(ns[i], filename, wi);
    VisitAllKeeps(ns, filename, w, i, Resolved(wi.scopes, ns[i]).value, Po.Location(filename, ns[i].line));
  }

  /** The walk when it reaches argument `i` of a call: the call's own
      entry is in, and the called expression and the arguments before `i`
      are visited. */
  function ArgWalk(n: Node, filename: string, w: Walk, i: nat): Walk
    requires Po.Valid(w.doc) && n.Call? && i <= |n.args|
  {
    var doc := CallDoc(w.scopes, w.doc, n.func, n.args, filename, n.line);
    VisitAll(n.args[..i], filename, Visit(n.func, filename, Walk(w.scopes, doc)))
  }

  /** Arguments are visited too: a call nested in another call's
      arguments that resolves where the walk reaches it is extracted with
      its own line, whether or not the outer call is. */
  lemma {:induction false} CallArgExtracts(n: Node, filename: string, w: Walk, i: nat)
    requires Po.Valid(w.doc) && n.Call? && i < |n.args|
    requires Resolved(ArgWalk(n, filename, w, i).scopes, n.args[i]).Some?
    ensures Recorded(Visit(n, filename, w).doc, Resolved(ArgWalk(n, filename, w, i).scopes, n.args[i]).value,
                     Po.Location(filename, n.args[i].line))
  {
    var doc := CallDoc(w.scopes, w.doc, n.func, n.args, filename, n.line);
    var w1 := Visit(n.func, filename, Walk(w.scopes, doc));
    var w2 := VisitAll(n.args, filename, w1);
    var w3 := VisitAll(n.others, filename, w2);
    assert Visit(n, filename, w) == w3;
    VisitAllExtracts(n.args, filename, w1, i);
    GrowsKeepsRecorded(w2.doc, w3.doc, Resolved(ArgWalk(n, filename, w, i).scopes, n.args[i]).value, Po.Location(filename, n.args[i].line));
  }

  /** A call in a function body that resolves with the body's scope on
      top of the enclosing ones, as the statements before it leave them,
      is extracted with its line. */
  lemma {:induction false} BodyExtracts(n: Node, filename: string, w: Walk, i: nat)
    requires Po.Valid(w.doc) && n.FunctionDef? && i < |n.fields|
    requires Resolved(VisitAll(n.fields[..i], filename, Walk(w.scopes + [map[]], w.doc)).scopes, n.fields[i]).Some?
    ensures Recorded(Visit(n, filename, w).doc,
                     Resolved(VisitAll(n.fields[..i], filename, Walk(w.scopes + [map[]], w.doc)).scopes, n.fields[i]).value,
                     Po.Location(filename, n.fields[i].line))
  {
    VisitAllExtracts(n.fields, filename, Walk(w.scopes + [map[]], w.doc), i);
  }

  /** Whether a tree holds an import that could bind a translation
      function: an `import` of the translation module, or a non-relative
      `from` import out of it or its package. */
  predicate ImportsTranslation(n: Node)
    decreases n, 1
  {
    match n
    case Import(names) => exists i :: 0 <= i < |names| && names[i].name == "django.utils.translation"
    case ImportFrom(source, _, level) => level == 0 && (source == Some("django.utils.translation") || source == Some("django.utils"))
    case Attribute(v, _) => ImportsTranslation(v)
    case Call(func, args, others, _) => ImportsTranslation(func) || AnyImportsTranslation(args) || AnyImportsTranslation(others)
    case FunctionDef(fields) => AnyImportsTranslation(fields)
    case Other(fields) => AnyImportsTranslation(fields)
    case Name(_) => false
    case Str(_) => false
  }

  predicate AnyImportsTranslation(ns: seq<Node>)
    decreases ns, 0
  {
    ns != [] && (ImportsTranslation(ns[0]) || AnyImportsTranslation(ns[1..]))
  }

  /** Scopes that bind nothing. */
  predicate Unbound(scopes: seq<map<string, Kind>>) {
    forall i :: 0 <= i < |scopes| ==> scopes[i] == map[]
  }

  /** A `from` import out of another module binds nothing. */
  lemma {:induction false} ImportFromOthersBindNothing(scopes: Scopes, source: Option<string>, names: seq<Alias>, level: nat)
    requires level != 0 || (source != Some("django.utils.translation") && source != Some("django.utils"))
    ensures VisitImportFrom(scopes, source, names, level) == scopes
    decreases |names|
  {
    if level == 0 && names != [] {
      ImportFromOthersBindNothing(scopes, source, names[1..], level);
    }
  }

  /** With nothing bound and no import of the translation module, a visit
      changes neither the scopes nor the catalog. */
  lemma {:induction false} UnboundVisit(n: Node, filename: string, w: Walk)
    requires Po.Valid(w.doc) && Unbound(w.scopes) && !ImportsTranslation(n)
    ensures Visit(n, filename, w) == w
    decreases n, 1
  {
    match n
    case Import(names) =>
      ImportOthersBindNothing(w.scopes, names);
    case ImportFrom(m, names, level) =>
      ImportFromOthersBindNothing(w.scopes, m, names, level);
    case FunctionDef(fields) =>
      UnboundVisitAll(fields, filename, Walk(w.scopes + [map[]], w.doc));
    case Call(func, args, others, line) =>
      var name := DottedName(func, "");
      if name.Some? {
        assert Lookup(w.scopes, name.value).None?;
      }
      assert CallDoc(w.scopes, w.doc, func, args, filename, line) == w.doc;
      UnboundVisit(func, filename, w);
      UnboundVisitAll(args, filename, w);
      UnboundVisitAll(others, filename, w);
    case Attribute(v, _) =>
      UnboundVisit(v, filename, w);
    case Other(fields) =>
      UnboundVisitAll(fields, filename, w);
    case Name(_) =>
    case Str(_) =>
  }

  lemma {:induction false} UnboundVisitAll(ns: seq<Node>, filename: string, w: Walk)
    requires Po.Valid(w.doc) && Unbound(w.scopes) && !AnyImportsTranslation(ns)
    ensures VisitAll(ns, filename, w) == w
    decreases ns, 0
  {
    if ns != [] {
      UnboundVisit(ns[0], filename, w);
      UnboundVisitAll(ns[1..], filename, w);
    }
  }

  /** A module that never imports the translation module adds nothing to
      the catalog. */
  lemma {:induction false} NothingWithoutImport(tree: Node, filename: string, doc: Po.PoFile)
    requires Po.Valid(doc) && !ImportsTranslation(tree)
    ensures ExtractMessages(tree, filename, doc) == doc
  {
    UnboundVisit(tree, filename, Walk([map[]], doc));
  }

  /** A function whose body imports `gettext` from the translation module
      and calls it on a literal. */
  function LocalGettext(x: string, line: int): Node {
    FunctionDef([ImportFrom(Some("django.utils.translation"), [Alias("gettext", None)], 0),
                 Other([Call(Name("gettext"), [Str(x)], [], line)])])
  }

  /** In a module whose other statements import nothing from the
      translation module, only the call inside the importing function is
      extracted: the import binds `gettext` in that function's scope
      alone, so calls of `gettext` before or after it add nothing. */
  lemma {:induction false} LocalImportOnly(before: seq<Node>, x: string, line: int, after: seq<Node>,
                                           filename: string, doc: Po.PoFile)
    requires Po.Valid(doc) && !AnyImportsTranslation(before) && !AnyImportsTranslation(after)
    ensures ExtractMessages(Other(before + [LocalGettext(x, line)] + after), filename, doc) ==
      AddCall(doc, Message(x, None, None), filename, line)
  {
    var w0 := Walk([map[]], doc);
    UnboundVisitAll(before, filename, w0);
    var w2 := ImportingFunction(x, line, filename, w0);
    UnboundVisitAll(after, filename, w2);
    OnlyMiddleActs(before, LocalGettext(x, line), after, filename, w0, w2);
    ExtractOther(before + [LocalGettext(x, line)] + after, filename, doc);
  }

  /** A module's statements are walked with one empty scope. */
  lemma {:induction false} ExtractOther(ns: seq<Node>, filename: string, doc: Po.PoFile)
    requires Po.Valid(doc)
    ensures ExtractMessages(Other(ns), filename, doc) == VisitAll(ns, filename, Walk([map[]], doc)).doc
  {
  }

  /** When only the middle node changes the walk, the walk over all three
      parts is the middle node's. */
  lemma {:induction false} OnlyMiddleActs(before: seq<Node>, n: Node, after: seq<Node>, filename: string, w0: Walk, w2: Walk)
    requires Po.Valid(w0.doc) && Po.Valid(w2.doc)
    requires VisitAll(before, filename, w0) == w0 && Visit(n, filename, w0) == w2 && VisitAll(after, filename, w2) == w2
    ensures VisitAll(before + [n] + after, filename, w0) == w2
  {
    VisitAllSnoc(before, n, filename, w0);
    VisitAllAppend(before + [n], after, filename, w0);
  }

  /** The scoping part of the package's sample module: a function named
      `gettext`, a call of it, a function that imports `gettext` from the
      translation module and calls it, and a call after that function. */
  function ScopingSample(): Node {
    Other([FunctionDef([Name("message"), Other([])]),
           Other([Call(Name("gettext"), [Str("not a translation")], [], 88)]),
           LocalGettext("a translation", 94),
           Other([Call(Name("gettext"), [Str("still not a translation")], [], 97)])])
  }

  /** Extracting the sample into an empty catalog gives the one message
      of the importing function, at its line. */
  lemma {:induction false} ScopingSampleExtracts()
    ensures var d := ExtractMessages(ScopingSample(), "sample.py", Po.Empty());
      |d.entries| == 1 && d.entries[0].message == "a translation" &&
      Recorded(d, Message("a translation", None, None), Po.Location("sample.py", 94))
  {
    var before := [FunctionDef([Name("message"), Other([])]),
                   Other([Call(Name("gettext"), [Str("not a translation")], [], 88)])];
    var after := [Other([Call(Name("gettext"), [Str("still not a translation")], [], 97)])];
    assert ScopingSample() == Other(before + [LocalGettext("a translation", 94)] + after);
    SampleImportsNothing(before, after);
    LocalImportOnly(before, "a translation", 94, after, "sample.py", Po.Empty());
    AddCallToEmpty(Message("a translation", None, None), "sample.py", 94);
  }

  lemma {:induction false} SampleImportsNothing(before: seq<Node>, after: seq<Node>)
    requires before == [FunctionDef([Name("message"), Other([])]),
                        Other([Call(Name("gettext"), [Str("not a translation")], [], 88)])]
    requires after == [Other([Call(Name("gettext"), [Str("still not a translation")], [], 97)])]
    ensures !AnyImportsTranslation(before) && !AnyImportsTranslation(after)
  {
    var call0 := Call(Name("gettext"), [Str("not a translation")], [], 88);
    var call1 := Call(Name("gettext"), [Str("still not a translation")], [], 97);
    AnyOfTwo(Name("message"), Other([]));
    AnyOfOne(Str("not a translation"));
    AnyOfOne(Str("still not a translation"));
    assert !ImportsTranslation(call0) && !ImportsTranslation(call1);
    AnyOfOne(call0);
    AnyOfOne(call1);
    AnyOfTwo(before[0], before[1]);
    AnyOfOne(after[0]);
  }

  lemma {:induction false} AnyOfOne(a: Node)
    ensures AnyImportsTranslation([a]) == ImportsTranslation(a)
  {
    assert [a][0] == a && [a][1..] == [];
  }

  lemma {:induction false} AnyOfTwo(a: Node, b: Node)
    ensures AnyImportsTranslation([a, b]) == (ImportsTranslation(a) || ImportsTranslation(b))
  {
    assert [a, b][0] == a && [a, b][1..] == [b];
    AnyOfOne(b);
  }

  /** The walk over a function that imports `gettext` and calls it. */
  lemma {:induction false} ImportingFunction(x: string, line: int, filename: string, w0: Walk) returns (w2: Walk)
    requires Po.Valid(w0.doc)
    ensures w2 == Walk(w0.scopes, AddCall(w0.doc, Message(x, None, None), filename, line))
    ensures Visit(LocalGettext(x, line), filename, w0) == w2
  {
    var imp := ImportFrom(Some("django.utils.translation"), [Alias("gettext", None)], 0);
    var call := Call(Name("gettext"), [Str(x)], [], line);
    var inner0 := Walk(w0.scopes + [map[]], w0.doc);
    var s1 := Bind(inner0.scopes, "gettext", Gettext);
    ImportGettext(inner0.scopes, w0.doc, filename);
    LookupAfterBind(inner0.scopes, "gettext", Gettext, "gettext");
    var d1 := AddCall(w0.doc, Message(x, None, None), filename, line);
    GettextCallVisit(s1, w0.doc, filename, "gettext", x, line);
    OneNode(call, filename, Walk(s1, w0.doc));
    TwoNodes(imp, Other([call]), filename, inner0);
    FunctionDefParts([imp, Other([call])], filename, w0);
    w2 := Walk(w0.scopes, d1);
  }

  /** A function definition's visit walks its fields in a scope of its
      own and then drops that scope. */
  lemma {:induction false} FunctionDefParts(fields: seq<Node>, filename: string, w: Walk)
    requires Po.Valid(w.doc)
    ensures Visit(FunctionDef(fields), filename, w) ==
      Walk(w.scopes, VisitAll(fields, filename, Walk(w.scopes + [map[]], w.doc)).doc)
  {
  }

  /** Visiting `a + b` is visiting `a`, then `b`. */
  lemma {:induction false} VisitAllAppend(a: seq<Node>, b: seq<Node>, filename: string, w: Walk)
    requires Po.Valid(w.doc)
    ensures VisitAll(a + b, filename, w) == VisitAll(b, filename, VisitAll(a, filename, w))
  {
    VisitAllSplit(a + b, filename, w, |a|);
    assert (a + b)[..|a|] == a && (a + b)[|a|..] == b;
  }

  /** Visiting one more node continues the walk. */
  lemma {:induction false} VisitAllSnoc(ns: seq<Node>, n: Node, filename: string, w: Walk)
    requires Po.Valid(w.doc)
    ensures VisitAll(ns + [n], filename, w) == Visit(n, filename, VisitAll(ns, filename, w))
  {
    VisitAllSplit(ns + [n], filename, w, |ns|);
    assert (ns + [n])[..|ns|] == ns && (ns + [n])[|ns|..] == [n];
    var v := VisitAll(ns, filename, w);
    assert VisitAll([n], filename, v) == VisitAll([], filename, Visit(n, filename, v));
  }

  lemma {:induction false} OneNode(n: Node, filename: string, w: Walk)
    requires Po.Valid(w.doc)
    ensures Visit(Other([n]), filename, w) == Visit(n, filename, w)
  {
    var v := Visit(n, filename, w);
    assert [n][0] == n && [n][1..] == [];
    assert VisitAll([n], filename, w) == VisitAll([], filename, v);
  }

  lemma {:induction false} TwoNodes(a: Node, b: Node, filename: string, w: Walk)
    requires Po.Valid(w.doc)
    ensures VisitAll([a, b], filename, w) == Visit(b, filename, Visit(a, filename, w))
  {
    var va := Visit(a, filename, w);
    var vb := Visit(b, filename, va);
    assert [a, b][0] == a && [a, b][1..] == [b] && [b][0] == b && [b][1..] == [];
    assert VisitAll([a, b], filename, w) == VisitAll([b], filename, va);
    assert VisitAll([b], filename, va) == VisitAll([], filename, vb);
  }

  /** `from django.utils.translation import gettext` binds `gettext` in
      the innermost scope. */
  lemma {:induction false} ImportGettext(scopes: Scopes, doc: Po.PoFile, filename: string)
    requires Po.Valid(doc)
    ensures Visit(ImportFrom(Some("django.utils.translation"), [Alias("gettext", None)], 0), filename, Walk(scopes, doc)) ==
      Walk(Bind(scopes, "gettext", Gettext), doc)
  {
    assert KindOf("gettext") == Some(Gettext);
    assert [Alias("gettext", None)][1..] == [];
  }

  /** A call of a name bound to `gettext` with one literal argument adds
      that message with the call's line, and nothing else. */
  lemma {:induction false} GettextCallVisit(scopes: Scopes, doc: Po.PoFile, filename: string, g: string, x: string, line: int)
    requires Po.Valid(doc) && Lookup(scopes, g) == Some(Gettext)
    ensures Visit(Call(Name(g), [Str(x)], [], line), filename, Walk(scopes, doc)) ==
      Walk(scopes, AddCall(doc, Message(x, None, None), filename, line))
  {
    var d := AddCall(doc, Message(x, None, None), filename, line);
    GettextCallDoc(scopes, doc, filename, g, x, line);
    var w := Walk(scopes, d);
    CallParts(Call(Name(g), [Str(x)], [], line), filename, Walk(scopes, doc));
    assert Visit(Name(g), filename, w) == w;
    OneLiteral(x, filename, w);
  }

  lemma {:induction false} GettextCallDoc(scopes: Scopes, doc: Po.PoFile, filename: string, g: string, x: string, line: int)
    requires Po.Valid(doc) && Lookup(scopes, g) == Some(Gettext)
    ensures CallDoc(scopes, doc, Name(g), [Str(x)], filename, line) == AddCall(doc, Message(x, None, None), filename, line)
  {
    assert DottedName(Name(g), "") == Some(g + "") && g + "" == g;
    assert FirstArgsAreStrings([Str(x)], 1);
  }

  /** A call's visit: its own entry, then its function, arguments and
      other fields. */
  lemma {:induction false} CallParts(c: Node, filename: string, w: Walk)
    requires Po.Valid(w.doc) && c.Call?
    ensures var w1 := Visit(c.func, filename, Walk(w.scopes, CallDoc(w.scopes, w.doc, c.func, c.args, filename, c.line)));
      Visit(c, filename, w) == VisitAll(c.others, filename, VisitAll(c.args, filename, w1))
  {
  }

  lemma {:induction false} OneLiteral(x: string, filename: string, w: Walk)
    requires Po.Valid(w.doc)
    ensures VisitAll([Str(x)], filename, w) == w
  {
    assert [Str(x)][0] == Str(x) && [Str(x)][1..] == [];
    assert Visit(Str(x), filename, w) == w;
  }

  /** The first call adds the only entry. */
  lemma {:induction false} AddCallToEmpty(m: Message, filename: string, line: int)
    ensures var d := AddCall(Po.Empty(), m, filename, line); |d.entries| == 1 && d.entries[0].message == m.message
  {
    var (d, j) := Po.AddEntry(Po.Empty(), m.message, m.plural, m.context);
    assert d.entries == [Po.NewEntry(m.message, m.plural, m.context)];
  }

  /** Names that no alias of `names` makes visible resolve as before after
      a `from django.utils.translation import ...`. */
  lemma {:induction false} ImportFromOthers(scopes: Scopes, names: seq<Alias>, x: string)
    requires forall j :: 0 <= j < |names| ==> Visible(names[j]) != x
    ensures Lookup(VisitImportFrom(scopes, Some("django.utils.translation"), names, 0), x) == Lookup(scopes, x)
    decreases |names|
  {
    if names != [] {
      var a := names[0];
      var s := if KindOf(a.name).Some? then Bind(scopes, Visible(a), KindOf(a.name).value) else scopes;
      assert VisitImportFrom(scopes, Some("django.utils.translation"), names, 0)
        == VisitImportFrom(s, Some("django.utils.translation"), names[1..], 0);
      if KindOf(a.name).Some? {
        LookupAfterBind(scopes, Visible(a), KindOf(a.name).value, x);
      }
      ImportFromOthers(s, names[1..], x);
    }
  }

  /** `from django.utils.translation import f as g` makes `g` resolve to
      the signature of `f`, unless a later alias of the same statement
      rebinds `g`. */
  lemma {:induction false} ImportFromBinds(scopes: Scopes, names: seq<Alias>, i: nat)
    requires i < |names| && KindOf(names[i].name).Some?
    requires forall j :: i < j < |names| ==> Visible(names[j]) != Visible(names[i])
    ensures Lookup(VisitImportFrom(scopes, Some("django.utils.translation"), names, 0), Visible(names[i])) == KindOf(names[i].name)
    decreases i
  {
    var a := names[0];
    var s := if KindOf(a.name).Some? then Bind(scopes, Visible(a), KindOf(a.name).value) else scopes;
    assert VisitImportFrom(scopes, Some("django.utils.translation"), names, 0)
      == VisitImportFrom(s, Some("django.utils.translation"), names[1..], 0);
    if i == 0 {
      LookupAfterBind(scopes, Visible(a), KindOf(a.name).value, Visible(a));
      ImportFromOthers(s, names[1..], Visible(a));
    } else {
      ImportFromBinds(s, names[1..], i - 1);
    }
  }

  /** `import django.utils.translation as t` makes `t.f` resolve to the
      signature of `f` for every translation function `f`; without `as`
      the full dotted module name is the prefix. */
  lemma {:induction false} ImportBindsModule(scopes: Scopes, a: Alias, f: string)
    requires a.name == "django.utils.translation" && KindOf(f).Some?
    ensures Lookup(VisitImport(scopes, [a]), Visible(a) + "." + f) == KindOf(f)
  {
    assert VisitImport(scopes, [a]) == VisitImport(BindModule(scopes, Visible(a)), []);
    ModuleBinding(scopes, Visible(a), f);
  }

  /** Importing anything else binds nothing. */
  lemma {:induction false} ImportOthersBindNothing(scopes: Scopes, names: seq<Alias>)
    requires forall j :: 0 <= j < |names| ==> names[j].name != "django.utils.translation"
    ensures VisitImport(scopes, names) == scopes
    decreases |names|
  {
    if names != [] {
      ImportOthersBindNothing(scopes, names[1..]);
    }
  }
}
