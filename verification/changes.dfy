/** Change detection shared by the file watcher and the translation
    loader: a table of the signatures (modification times) last seen for a
    set of paths, brought up to date against the file system. The file
    system is a map from the path of each existing regular file to its
    current signature; `S` stands for the modification time. */
module Changes {

  /** `a` and `b` agree at `p`: both lack it, or both map it to the same
      signature. */
  predicate Agree<S(==)>(a: map<string, S>, b: map<string, S>, p: string) {
    (p in a <==> p in b) && (p in a ==> a[p] == b[p])
  }

  /** Maps that agree everywhere are equal. */
  lemma {:induction false} AgreeEverywhere<S>(a: map<string, S>, b: map<string, S>)
    requires forall p :: Agree(a, b, p)
    ensures a == b
  {
    assert a.Keys == b.Keys by {
      forall p | p in a.Keys ensures p in b.Keys { assert Agree(a, b, p); }
      forall p | p in b.Keys ensures p in a.Keys { assert Agree(a, b, p); }
    }
    forall p | p in a ensures a[p] == b[p] { assert Agree(a, b, p); }
  }

  /** The table after looking at every path of `paths`: an existing file
      is recorded with its current signature, a missing one is forgotten,
      and paths outside `paths` keep their entries. */
  function Refreshed<S(==)>(tracked: map<string, S>, paths: set<string>, fs: map<string, S>): (t: map<string, S>)
    ensures forall p :: p in paths ==> (p in t <==> p in fs) && (p in t ==> t[p] == fs[p])
    ensures forall p :: p !in paths ==> Agree(t, tracked, p)
  {
    map p | p in tracked.Keys + paths && (p in paths ==> p in fs) :: if p in paths then fs[p] else tracked[p]
  }

  /** Whether looking at `p` changes the table. */
  predicate Stale<S(==)>(tracked: map<string, S>, p: string, fs: map<string, S>) {
    !Agree(tracked, fs, p)
  }

  /** Brings the table up to date for `paths`, one path at a time, and
      reports whether any entry was added, changed or removed. Looking at
      a path twice changes nothing the second time, so the order in which
      the paths are visited, and repetitions, do not matter. */
  method Refresh<S(==)>(tracked: map<string, S>, paths: set<string>, fs: map<string, S>) returns (t: map<string, S>, changed: bool)
    ensures t == Refreshed(tracked, paths, fs)
    ensures changed <==> exists p :: p in paths && Stale(tracked, p, fs)
    ensures changed <==> t != tracked
  {
    t := tracked;
    changed := false;
    var rest := paths;
    while rest != {}
      invariant rest <= paths
      invariant forall p :: p in paths - rest ==> (p in t <==> p in fs) && (p in t ==> t[p] == fs[p])
      invariant forall p :: p !in paths - rest ==> Agree(t, tracked, p)
      invariant changed <==> exists p :: p in paths - rest && Stale(tracked, p, fs)
      decreases rest
    {
      var p :| p in rest;
      assert Agree(t, tracked, p);
      assert paths - (rest - {p}) == (paths - rest) + {p};
      if p in fs {
        if p !in t || t[p] != fs[p] {
          t := t[p := fs[p]];
          changed := true;
        }
      } else if p in t {
        t := map q | q in t && q != p :: t[q];
        changed := true;
      }
      rest := rest - {p};
    }
    assert paths - rest == paths;
    var r := Refreshed(tracked, paths, fs);
    forall p ensures Agree(t, r, p) {
      if p in paths {
        assert Agree(t, fs, p) && Agree(r, fs, p);
      } else {
        assert Agree(t, tracked, p) && Agree(r, tracked, p);
      }
    }
    AgreeEverywhere(t, r);
    if changed {
      var p :| p in paths && Stale(tracked, p, fs);
      assert !Agree(t, tracked, p);
    } else {
      AgreeEverywhere(t, tracked);
    }
  }

  /** The table with the entries of paths outside `keep` removed. */
  function Kept<S(==)>(tracked: map<string, S>, keep: set<string>): (t: map<string, S>)
    ensures forall p :: p in keep ==> Agree(t, tracked, p)
    ensures forall p :: p !in keep ==> p !in t
  {
    map p | p in tracked && p in keep :: tracked[p]
  }

  /** Forgets every tracked path outside `keep` and reports whether there
      was one. */
  method Forget<S(==)>(tracked: map<string, S>, keep: set<string>) returns (t: map<string, S>, changed: bool)
    ensures t == Kept(tracked, keep)
    ensures changed <==> exists p :: p in tracked && p !in keep
    ensures changed <==> t != tracked
  {
    t := tracked;
    changed := false;
    var rest := tracked.Keys;
    while rest != {}
      invariant rest <= tracked.Keys
      invariant forall p :: p in tracked.Keys - rest && p !in keep ==> p !in t
      invariant forall p :: (p !in tracked.Keys - rest || p in keep) ==> Agree(t, tracked, p)
      invariant changed <==> exists p :: p in tracked.Keys - rest && p !in keep
      decreases rest
    {
      var p :| p in rest;
      if p !in keep {
        t := map q | q in t && q != p :: t[q];
        changed := true;
      }
      rest := rest - {p};
    }
    AgreeEverywhere(t, Kept(tracked, keep));
    if changed {
      var p :| p in tracked && p !in keep;
      assert !Agree(t, tracked, p);
    } else {
      AgreeEverywhere(t, tracked);
    }
  }

  /** Refreshing is idempotent: a second look at the same file system
      reports no change. */
  lemma {:induction false} RefreshedSettles<S>(tracked: map<string, S>, paths: set<string>, fs: map<string, S>)
    ensures Refreshed(Refreshed(tracked, paths, fs), paths, fs) == Refreshed(tracked, paths, fs)
    ensures forall p :: p in paths ==> !Stale(Refreshed(tracked, paths, fs), p, fs)
  {
    var t := Refreshed(tracked, paths, fs);
    forall p ensures Agree(Refreshed(t, paths, fs), t, p) {
      if p in paths {
        assert Agree(t, fs, p);
      }
    }
    AgreeEverywhere(Refreshed(t, paths, fs), t);
  }

  /** The table a full look at `paths` should give: the current signature
      of each of them that exists, and nothing else. */
  function Observed<S>(paths: set<string>, fs: map<string, S>): (t: map<string, S>)
    ensures forall p :: p in t <==> p in paths && p in fs
  {
    map p | p in paths && p in fs :: fs[p]
  }

  /** Forgetting the paths outside `paths` and then refreshing `paths`
      gives the observed table, whatever was tracked before; the two steps
      report a change exactly when the table differs from the one before. */
  lemma {:induction false} ForgetThenRefresh<S>(tracked: map<string, S>, paths: set<string>, fs: map<string, S>)
    ensures Refreshed(Kept(tracked, paths), paths, fs) == Observed(paths, fs)
    ensures Observed(paths, fs) != tracked <==> Kept(tracked, paths) != tracked || Refreshed(Kept(tracked, paths), paths, fs) != Kept(tracked, paths)
  {
    var k := Kept(tracked, paths);
    var o := Observed(paths, fs);
    forall p ensures Agree(Refreshed(k, paths, fs), o, p) {
    }
    AgreeEverywhere(Refreshed(k, paths, fs), o);
    if k != tracked {
      var p :| p in tracked && p !in paths;
      assert !Agree(o, tracked, p);
    }
  }
}
