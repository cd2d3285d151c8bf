/** The reloading file watcher: it tracks the modification times of the
    files its subclass lists and calls the subclass's load hook when the
    watcher is dirty. A clean watcher looks for changes first; a dirty one
    (as every new watcher is) loads without looking. The listing and the
    file system are parameters of each reload; the load hook is counted. */
module FileWatcher {
  import opened Changes

  datatype Watcher<S> = Watcher(tracked: map<string, S>, dirty: bool, loads: nat)

  /** A new watcher tracks nothing and is dirty. */
  function New<S>(): (w: Watcher<S>)
    ensures w.dirty && w.tracked == map[] && w.loads == 0
  {
    Watcher(map[], true, 0)
  }

  /** Looks for changes: forgets listed-no-more paths, records the current
      time of every listed file, forgets listed paths that are not files,
      and becomes dirty if anything was forgotten or recorded anew. */
  method CheckForChanges<S(==)>(w: Watcher<S>, listing: set<string>, fs: map<string, S>) returns (r: Watcher<S>)
    ensures r.tracked == Observed(listing, fs)
    ensures r.dirty <==> w.dirty || r.tracked != w.tracked
    ensures r.loads == w.loads
  {
    var kept, forgot := Forget(w.tracked, listing);
    var t, refreshed := Refresh(kept, listing, fs);
    ForgetThenRefresh(w.tracked, listing, fs);
    r := Watcher(t, w.dirty || forgot || refreshed, w.loads);
  }

  /** The watcher after one reload. */
  function Reloaded<S(==)>(w: Watcher<S>, listing: set<string>, fs: map<string, S>): (r: Watcher<S>)
    ensures !r.dirty
    ensures r.loads == w.loads || r.loads == w.loads + 1
  {
    var tracked := if w.dirty then w.tracked else Observed(listing, fs);
    if w.dirty || tracked != w.tracked then Watcher(tracked, false, w.loads + 1)
    else Watcher(tracked, false, w.loads)
  }

  /** One reload: a clean watcher looks for changes; then a dirty watcher
      loads and becomes clean. */
  method Reload<S(==)>(w: Watcher<S>, listing: set<string>, fs: map<string, S>) returns (r: Watcher<S>)
    ensures r == Reloaded(w, listing, fs)
    ensures r.loads == w.loads + 1 <==> w.dirty || Observed(listing, fs) != w.tracked
  {
    r := w;
    if !r.dirty {
      r := CheckForChanges(r, listing, fs);
    }
    if r.dirty {
      r := r.(loads := r.loads + 1, dirty := false);
    }
  }

  /** The first reload loads without recording any time, so the second
      one finds every listed file new and loads again even though nothing
      changed. */
  lemma {:induction false} SecondReloadLoadsAgain<S>(listing: set<string>, fs: map<string, S>)
    requires exists p :: p in listing && p in fs
    ensures Reloaded(New(), listing, fs).loads == 1
    ensures Reloaded(New(), listing, fs).tracked == map[]
    ensures Reloaded(Reloaded(New(), listing, fs), listing, fs).loads == 2
  {
    var p :| p in listing && p in fs;
    assert p in Observed(listing, fs);
  }

  /** After two reloads on an unchanged file system, further reloads do
      not load. */
  lemma {:induction false} ReloadSettles<S>(w: Watcher<S>, listing: set<string>, fs: map<string, S>)
    ensures var w2 := Reloaded(Reloaded(w, listing, fs), listing, fs);
      Reloaded(w2, listing, fs) == w2
  {
    var w1 := Reloaded(w, listing, fs);
    var w2 := Reloaded(w1, listing, fs);
    assert w2.tracked == Observed(listing, fs);
  }

  /** A clean watcher that is up to date loads on the next reload exactly
      when a listed file appeared, disappeared or has a new time, or a
      tracked file is listed no more. */
  lemma {:induction false} ReloadOnChange<S>(w: Watcher<S>, listing: set<string>, fs: map<string, S>)
    requires !w.dirty
    ensures Reloaded(w, listing, fs).loads == w.loads + 1 <==>
      (exists p :: p in listing && Stale(w.tracked, p, fs)) || (exists p :: p in w.tracked && p !in listing)
  {
    var o := Observed(listing, fs);
    if o != w.tracked {
      if forall p :: p in listing ==> !Stale(w.tracked, p, fs) {
        if forall p :: p in w.tracked ==> p in listing {
          forall p ensures Agree(o, w.tracked, p) {
            if p in listing { assert !Stale(w.tracked, p, fs); }
          }
          AgreeEverywhere(o, w.tracked);
        }
      }
    } else {
      if exists p :: p in listing && Stale(w.tracked, p, fs) {
        var p :| p in listing && Stale(w.tracked, p, fs);
        assert Agree(o, fs, p);
      }
    }
  }
}
