/**
 * The perishable file registry as a state machine over values. Each watcher
 * event is one sequential, atomic step. The state is
 *   - souls:   the registry, from a full path to the lifetime source it owns;
 *   - sources: every lifetime source ever created, indexed by SourceId, so a
 *              fresh source is always |sources|;
 *   - items:   every (path, source) pair handed to the perishable collection,
 *              in order;
 *   - errors:  every error raised on the error channel, in order;
 *   - disposed: whether teardown has run.
 * The live set is the items whose source has not ended.
 */
module PerishableRegistry {
  import opened Lifetimes

  type Path = string
  type SourceId = nat

  /** One perishable handed to the collection: a path and its lifetime. */
  datatype Item = Item(path: Path, source: SourceId)

  /** What the error channel can carry. */
  datatype Error =
    | InitialScanDuplicate        // TryAdd failed while getting the initial files
    | CreatedDuplicate            // TryAdd failed when a file was created
    | WatcherFailure(cause: string)  // forwarded from the directory watcher

  datatype FsState = FsState(
    souls: map<Path, SourceId>,
    sources: seq<LifeState>,
    items: seq<Item>,
    errors: seq<Error>,
    disposed: bool)

  const Initial: FsState := FsState(map[], [], [], [], false)

  predicate IsLive(sources: seq<LifeState>, x: Item) {
    x.source < |sources| && sources[x.source] != Ended
  }

  predicate Registered(souls: map<Path, SourceId>, x: Item) {
    x.path in souls && souls[x.path] == x.source
  }

  /** Every registered source exists and is Alive (Immortal once disposed). */
  ghost predicate RegisteredAlive(st: FsState) {
    forall p | p in st.souls ::
      st.souls[p] < |st.sources| && st.sources[st.souls[p]] == (if st.disposed then Immortal else Alive)
  }

  /** Every registration was delivered to the collection. */
  ghost predicate RegisteredDelivered(st: FsState) {
    forall p | p in st.souls :: Item(p, st.souls[p]) in st.items
  }

  /** Every delivered source exists, and no source is delivered twice. */
  ghost predicate DeliveredOnce(st: FsState) {
    && (forall i | 0 <= i < |st.items| :: st.items[i].source < |st.sources|)
    && (forall i, j | 0 <= i < j < |st.items| :: st.items[i].source != st.items[j].source)
  }

  /** A delivered item is live exactly when it is still the registration of its path. */
  ghost predicate LiveIffRegistered(st: FsState) {
    forall i | 0 <= i < |st.items| :: IsLive(st.sources, st.items[i]) <==> Registered(st.souls, st.items[i])
  }

  /** The registry invariant. */
  ghost predicate Inv(st: FsState) {
    RegisteredAlive(st) && RegisteredDelivered(st) && DeliveredOnce(st) && LiveIffRegistered(st)
  }

  /** The live set: the delivered items whose lifetime has not ended, in delivery order. */
  function Live(items: seq<Item>, sources: seq<LifeState>): (r: seq<Item>)
    ensures forall x :: x in r <==> x in items && IsLive(sources, x)
    ensures |r| <= |items|
  {
    if items == [] then []
    else
      var last := items[|items| - 1];
      Live(items[..|items| - 1], sources) + (if IsLive(sources, last) then [last] else [])
  }

  function EndAt(sources: seq<LifeState>, id: SourceId): seq<LifeState> {
    if id < |sources| then sources[id := End(sources[id])] else sources
  }

  function ImmortalizeAt(sources: seq<LifeState>, id: SourceId): seq<LifeState> {
    if id < |sources| then sources[id := Immortalize(sources[id])] else sources
  }

  function ImmortalizeAll(sources: seq<LifeState>, ids: set<SourceId>): seq<LifeState> {
    seq(|sources|, i requires 0 <= i < |sources| => if i in ids then Immortalize(sources[i]) else sources[i])
  }

  /**
   * A fresh lifetime source, then TryAdd: on success the pair is added to the
   * collection, on failure the error is raised and the new source is dropped.
   */
  function RegisterStep(st: FsState, p: Path, err: Error): (r: FsState)
    ensures |r.sources| == |st.sources| + 1 && r.sources[..|st.sources|] == st.sources
    ensures r.sources[|st.sources|] == Alive
    ensures r.souls.Keys == st.souls.Keys + {p} && r.disposed == st.disposed
    ensures p !in st.souls ==>
      r.souls[p] == |st.sources| && r.items == st.items + [Item(p, |st.sources|)] && r.errors == st.errors
    ensures p in st.souls ==> r.souls == st.souls && r.items == st.items && r.errors == st.errors + [err]
  {
    var id := |st.sources|;
    var st' := st.(sources := st.sources + [Alive]);
    if p !in st'.souls then
      st'.(souls := st'.souls[p := id], items := st'.items + [Item(p, id)])
    else
      st'.(errors := st'.errors + [err])
  }

  /** Deleted: TryRemove, and end the removed source. */
  function DeletedStep(st: FsState, p: Path): (r: FsState)
    ensures p !in r.souls && r.souls.Keys == st.souls.Keys - {p}
    ensures |r.sources| == |st.sources|
    ensures r.items == st.items && r.errors == st.errors && r.disposed == st.disposed
    ensures p in st.souls && st.souls[p] < |st.sources| ==> r.sources[st.souls[p]] == End(st.sources[st.souls[p]])
  {
    if p in st.souls then st.(souls := st.souls - {p}, sources := EndAt(st.sources, st.souls[p]))
    else st
  }

  /**
   * Created: a path without an extension is taken for a directory, whose walk
   * registers nothing; a path already registered is handled as Changed;
   * otherwise it is registered.
   */
  function CreatedStep(st: FsState, p: Path, hasExtension: bool): (r: FsState)
    decreases if p in st.souls then 2 else 0
    ensures !hasExtension ==> r == st
    ensures hasExtension ==>
      && r.souls.Keys == st.souls.Keys + {p} && r.souls[p] == |st.sources|
      && |r.sources| == |st.sources| + 1 && r.sources[|st.sources|] == Alive
      && r.items == st.items + [Item(p, |st.sources|)]
    ensures r.errors == st.errors && r.disposed == st.disposed
  {
    if !hasExtension then st
    else if p in st.souls then ChangedStep(st, p, hasExtension)
    else RegisterStep(st, p, CreatedDuplicate)
  }

  /** Changed: Deleted, then Created. After Deleted the path is absent, so the recursion stops. */
  function ChangedStep(st: FsState, p: Path, hasExtension: bool): (r: FsState)
    decreases 1
    ensures !hasExtension ==> r == DeletedStep(st, p)
    ensures hasExtension ==>
      && r.souls.Keys == st.souls.Keys + {p} && r.souls[p] == |st.sources|
      && |r.sources| == |st.sources| + 1 && r.sources[|st.sources|] == Alive
      && r.items == st.items + [Item(p, |st.sources|)]
    ensures r.errors == st.errors && r.disposed == st.disposed
  {
    CreatedStep(DeletedStep(st, p), p, hasExtension)
  }

  /** Renamed: Deleted of the old path, then Created of the new one. */
  function RenamedStep(st: FsState, oldPath: Path, newPath: Path, newHasExtension: bool): (r: FsState)
    ensures !newHasExtension ==> r == DeletedStep(st, oldPath)
    ensures newHasExtension ==>
      && r.souls.Keys == st.souls.Keys - {oldPath} + {newPath} && r.souls[newPath] == |st.sources|
      && |r.sources| == |st.sources| + 1 && r.sources[|st.sources|] == Alive
      && r.items == st.items + [Item(newPath, |st.sources|)]
    ensures r.errors == st.errors && r.disposed == st.disposed
  {
    CreatedStep(DeletedStep(st, oldPath), newPath, newHasExtension)
  }

  /** addCreatedFile: a fresh source, AddOrUpdate ending any previous one, then Add. */
  function AddCreatedFileStep(st: FsState, p: Path): (r: FsState)
    ensures r.souls.Keys == st.souls.Keys + {p} && r.souls[p] == |st.sources|
    ensures |r.sources| == |st.sources| + 1
    ensures p !in st.souls || st.souls[p] < |st.sources| ==> r.sources[|st.sources|] == Alive
    ensures p in st.souls && st.souls[p] < |st.sources| ==> r.sources[st.souls[p]] == End(st.sources[st.souls[p]])
    ensures r.items == st.items + [Item(p, |st.sources|)] && r.errors == st.errors && r.disposed == st.disposed
  {
    var id := |st.sources|;
    var sources := st.sources + [Alive];
    assert p in st.souls && st.souls[p] < |st.sources| ==> sources[st.souls[p]] == st.sources[st.souls[p]];
    st.(souls := st.souls[p := id],
        sources := if p in st.souls then EndAt(sources, st.souls[p]) else sources,
        items := st.items + [Item(p, id)])
  }

  /** A watcher error is forwarded to the error channel. */
  function ErrorStep(st: FsState, cause: string): (r: FsState)
    ensures r.souls == st.souls && r.sources == st.sources && r.items == st.items && r.disposed == st.disposed
    ensures |r.errors| == |st.errors| + 1 && r.errors[..|st.errors|] == st.errors
    ensures r.errors[|st.errors|] == WatcherFailure(cause)
  {
    st.(errors := st.errors + [WatcherFailure(cause)])
  }

  /** Dispose: stop the watcher, then immortalize every registered source. */
  function DisposeStep(st: FsState): (r: FsState)
    ensures r.disposed && r.souls == st.souls && r.items == st.items && r.errors == st.errors
    ensures |r.sources| == |st.sources|
    ensures forall i | 0 <= i < |st.sources| :: r.sources[i].Ended? <==> st.sources[i].Ended?
    ensures forall p | p in st.souls && st.souls[p] < |st.sources| :: !r.sources[st.souls[p]].Alive?
  {
    st.(sources := ImmortalizeAll(st.sources, st.souls.Values), disposed := true)
  }

  /** The initial scan: the scan insert applied to each path in turn. */
  function ScanSteps(st: FsState, paths: seq<Path>): (r: FsState)
    decreases |paths|
    ensures |r.sources| == |st.sources| + |paths| && r.disposed == st.disposed
    ensures st.souls.Keys <= r.souls.Keys
    ensures forall i | 0 <= i < |paths| :: paths[i] in r.souls
  {
    if paths == [] then st
    else
      var init, last := paths[..|paths| - 1], paths[|paths| - 1];
      assert paths == init + [last];
      RegisterStep(ScanSteps(st, init), last, InitialScanDuplicate)
  }

  // ---------------------------------------------------------------------------
  // Consequences of the invariant

  /** No lifetime source is shared by two paths. */
  lemma SourcesDistinct(st: FsState, p: Path, q: Path)
    requires Inv(st)
    requires p in st.souls && q in st.souls && p != q
    ensures st.souls[p] != st.souls[q]
  {
  }

  /**
   * The registry and the live set agree: the registered paths are exactly the
   * paths of live items, each live item holds its path's registered source,
   * so no path has two live items.
   */
  lemma LiveSetIsRegistry(st: FsState)
    requires Inv(st)
    ensures (set x | x in Live(st.items, st.sources) :: x.path) == st.souls.Keys
    ensures forall x | x in Live(st.items, st.sources) :: Registered(st.souls, x)
    ensures forall x, y | x in Live(st.items, st.sources) && y in Live(st.items, st.sources) && x.path == y.path :: x == y
  {
    var live := Live(st.items, st.sources);
    forall x | x in live ensures Registered(st.souls, x) {
      var i :| 0 <= i < |st.items| && st.items[i] == x;
    }
    forall p | p in st.souls ensures p in (set x | x in live :: x.path) {
      var x := Item(p, st.souls[p]);
      var i :| 0 <= i < |st.items| && st.items[i] == x;
      assert x in live;
    }
  }

  // ---------------------------------------------------------------------------
  // What each step does

  /**
   * p now holds a brand-new Alive source (one no earlier source shares), and
   * the pair is the one item delivered; no error was raised.
   */
  ghost predicate RegistersFresh(st: FsState, r: FsState, p: Path) {
    var id := |st.sources|;
    && |r.sources| == id + 1 && r.sources[id] == Alive
    && p in r.souls && r.souls[p] == id
    && r.items == st.items + [Item(p, id)]
    && r.errors == st.errors
  }

  /** No path outside `paths` gained, lost or changed its registration. */
  ghost predicate OtherPathsKept(st: FsState, r: FsState, paths: set<Path>) {
    forall q | q !in paths :: (q in r.souls <==> q in st.souls) && (q in st.souls ==> r.souls[q] == st.souls[q])
  }

  /** The source p is registered with, as a set: empty when p is not registered. */
  function SourceOf(souls: map<Path, SourceId>, p: Path): set<SourceId> {
    if p in souls then {souls[p]} else {}
  }

  /** The source p had before the step, if any, has ended. */
  ghost predicate EndsSourceOf(st: FsState, r: FsState, p: Path) {
    p in st.souls ==> st.souls[p] < |r.sources| && r.sources[st.souls[p]] == Ended
  }

  /** Every earlier source outside `touched` is as it was. */
  ghost predicate KeepsOtherSources(st: FsState, r: FsState, touched: set<SourceId>) {
    && |st.sources| <= |r.sources|
    && forall i | 0 <= i < |st.sources| && i !in touched :: r.sources[i] == st.sources[i]
  }

  /** Scan insert and the insert branch of Created. */
  lemma RegisterSpec(st: FsState, p: Path, err: Error)
    requires Inv(st) && !st.disposed
    ensures var r := RegisterStep(st, p, err);
      && Inv(r) && !r.disposed
      && KeepsOtherSources(st, r, {})
      && (p !in st.souls ==> RegistersFresh(st, r, p) && OtherPathsKept(st, r, {p}))
      && (p in st.souls ==>
            && r.souls == st.souls && r.items == st.items
            && r.errors == st.errors + [err])
  {
    if p !in st.souls {
      RegisterAbsent(st, p, err);
    } else {
      RegisterPresent(st, p, err);
    }
  }

  lemma RegisterAbsent(st: FsState, p: Path, err: Error)
    requires Inv(st) && !st.disposed && p !in st.souls
    ensures Inv(RegisterStep(st, p, err))
  {
    var r := RegisterStep(st, p, err);
    var id := |st.sources|;
    assert r.sources == st.sources + [Alive];
    assert r.souls == st.souls[p := id];
    assert r.items == st.items + [Item(p, id)];
    assert RegisteredAlive(r) by {
      forall q | q in r.souls ensures r.souls[q] < |r.sources| && r.sources[r.souls[q]] == Alive {
        if q != p {
          assert r.sources[st.souls[q]] == st.sources[st.souls[q]];
        }
      }
    }
    assert RegisteredDelivered(r) by {
      forall q | q in r.souls ensures Item(q, r.souls[q]) in r.items {
        if q != p {
          assert Item(q, st.souls[q]) in st.items;
        } else {
          assert r.items[|st.items|] == Item(p, id);
        }
      }
    }
    assert DeliveredOnce(r) by {
      forall i, j | 0 <= i < j < |r.items| ensures r.items[i].source != r.items[j].source {
        assert r.items[i] == st.items[i];
        if j < |st.items| {
          assert r.items[j] == st.items[j];
        }
      }
    }
    assert LiveIffRegistered(r) by {
      forall i | 0 <= i < |r.items|
        ensures IsLive(r.sources, r.items[i]) <==> Registered(r.souls, r.items[i])
      {
        if i < |st.items| {
          var x := st.items[i];
          assert r.items[i] == x;
          assert x.source < id;
          assert IsLive(r.sources, x) <==> IsLive(st.sources, x);
          assert Registered(r.souls, x) <==> Registered(st.souls, x);
        }
      }
    }
  }

  lemma RegisterPresent(st: FsState, p: Path, err: Error)
    requires Inv(st) && !st.disposed && p in st.souls
    ensures Inv(RegisterStep(st, p, err))
  {
    var r := RegisterStep(st, p, err);
    assert r.sources == st.sources + [Alive];
    assert RegisteredAlive(r) by {
      forall q | q in r.souls ensures r.sources[r.souls[q]] == Alive {
        assert r.sources[st.souls[q]] == st.sources[st.souls[q]];
      }
    }
    assert LiveIffRegistered(r) by {
      forall i | 0 <= i < |r.items|
        ensures IsLive(r.sources, r.items[i]) <==> IsLive(st.sources, st.items[i])
      {
        assert r.sources[st.items[i].source] == st.sources[st.items[i].source];
      }
    }
  }

  /** Deleted ends and unregisters the path's source, if it had one, and touches nothing else. */
  lemma DeletedSpec(st: FsState, p: Path)
    requires Inv(st) && !st.disposed
    ensures var r := DeletedStep(st, p);
      && Inv(r) && !r.disposed
      && r.souls == st.souls - {p}
      && EndsSourceOf(st, r, p)
      && KeepsOtherSources(st, r, SourceOf(st.souls, p)) && |r.sources| == |st.sources|
      && r.items == st.items && r.errors == st.errors
      && (p !in st.souls ==> r == st)
  {
    if p in st.souls {
      DeletedKeepsInv(st, p);
      var r := DeletedStep(st, p);
      assert r.sources == st.sources[st.souls[p] := Ended];
    }
  }

  lemma DeletedKeepsInv(st: FsState, p: Path)
    requires Inv(st) && !st.disposed && p in st.souls
    ensures Inv(DeletedStep(st, p))
  {
    var r := DeletedStep(st, p);
    var id := st.souls[p];
    assert r.souls == st.souls - {p};
    assert r.sources == st.sources[id := Ended];
    assert RegisteredAlive(r) by {
      forall q | q in r.souls ensures r.souls[q] < |r.sources| && r.sources[r.souls[q]] == Alive {
        SourcesDistinct(st, p, q);
      }
    }
    assert RegisteredDelivered(r) by {
      forall q | q in r.souls ensures Item(q, r.souls[q]) in r.items {
        assert Item(q, st.souls[q]) in st.items;
      }
    }
    assert LiveIffRegistered(r) by {
      forall i | 0 <= i < |r.items|
        ensures IsLive(r.sources, r.items[i]) <==> Registered(r.souls, r.items[i])
      {
        var x := st.items[i];
        if x.source == id {
          if x.path in r.souls {
            SourcesDistinct(st, p, x.path);
          }
        } else {
          assert IsLive(r.sources, x) <==> IsLive(st.sources, x);
        }
      }
    }
  }

  /**
   * Created of a file: afterwards p holds a fresh Alive source delivered as
   * one new item, any source p had before has ended, and no other path or
   * source changed. A path without extension changes nothing.
   */
  lemma CreatedSpec(st: FsState, p: Path, hasExtension: bool)
    requires Inv(st) && !st.disposed
    ensures var r := CreatedStep(st, p, hasExtension);
      && Inv(r) && !r.disposed
      && (!hasExtension ==> r == st)
      && (hasExtension ==>
            && RegistersFresh(st, r, p)
            && OtherPathsKept(st, r, {p})
            && EndsSourceOf(st, r, p)
            && KeepsOtherSources(st, r, SourceOf(st.souls, p)))
  {
    if hasExtension {
      var d := DeletedStep(st, p);
      DeletedSpec(st, p);
      RegisterSpec(d, p, CreatedDuplicate);
      if p in st.souls {
        assert CreatedStep(st, p, hasExtension) == ChangedStep(st, p, hasExtension);
        assert ChangedStep(st, p, hasExtension) == CreatedStep(d, p, hasExtension);
      }
      assert CreatedStep(st, p, hasExtension) == RegisterStep(d, p, CreatedDuplicate);
    }
  }

  /** Changed is Created after Deleted: the same fresh registration, never keeping identity. */
  lemma ChangedSpec(st: FsState, p: Path, hasExtension: bool)
    requires Inv(st) && !st.disposed
    ensures var r := ChangedStep(st, p, hasExtension);
      && Inv(r) && !r.disposed
      && (!hasExtension ==> r == DeletedStep(st, p))
      && (hasExtension ==>
            && RegistersFresh(st, r, p)
            && (p in st.souls ==> r.souls[p] != st.souls[p])
            && OtherPathsKept(st, r, {p})
            && EndsSourceOf(st, r, p)
            && KeepsOtherSources(st, r, SourceOf(st.souls, p)))
  {
    DeletedSpec(st, p);
    CreatedSpec(DeletedStep(st, p), p, hasExtension);
  }

  /**
   * Renamed: the old path is unregistered and its source ended; the new path
   * holds a fresh Alive source delivered as one new item, ending any source
   * it had. Nothing else changes.
   */
  lemma RenamedSpec(st: FsState, oldPath: Path, newPath: Path, newHasExtension: bool)
    requires Inv(st) && !st.disposed
    ensures var r := RenamedStep(st, oldPath, newPath, newHasExtension);
      && Inv(r) && !r.disposed
      && (oldPath != newPath || !newHasExtension ==> oldPath !in r.souls)
      && EndsSourceOf(st, r, oldPath)
      && (!newHasExtension ==> r == DeletedStep(st, oldPath))
      && (newHasExtension ==>
            && RegistersFresh(st, r, newPath)
            && OtherPathsKept(st, r, {oldPath, newPath})
            && EndsSourceOf(st, r, oldPath) && EndsSourceOf(st, r, newPath)
            && KeepsOtherSources(st, r, SourceOf(st.souls, oldPath) + SourceOf(st.souls, newPath)))
  {
    RenamedRemovesOld(st, oldPath, newPath, newHasExtension);
    if newHasExtension {
      RenamedRegistersNew(st, oldPath, newPath);
    }
  }

  lemma RenamedRemovesOld(st: FsState, oldPath: Path, newPath: Path, newHasExtension: bool)
    requires Inv(st) && !st.disposed
    ensures var r := RenamedStep(st, oldPath, newPath, newHasExtension);
      && Inv(r) && !r.disposed
      && (oldPath != newPath || !newHasExtension ==> oldPath !in r.souls)
      && EndsSourceOf(st, r, oldPath)
      && (!newHasExtension ==> r == DeletedStep(st, oldPath))
  {
    DeletedSpec(st, oldPath);
    CreatedSpec(DeletedStep(st, oldPath), newPath, newHasExtension);
  }

  lemma RenamedRegistersNew(st: FsState, oldPath: Path, newPath: Path)
    requires Inv(st) && !st.disposed
    ensures var r := RenamedStep(st, oldPath, newPath, true);
      && RegistersFresh(st, r, newPath)
      && OtherPathsKept(st, r, {oldPath, newPath})
      && EndsSourceOf(st, r, oldPath) && EndsSourceOf(st, r, newPath)
      && KeepsOtherSources(st, r, SourceOf(st.souls, oldPath) + SourceOf(st.souls, newPath))
  {
    var d := DeletedStep(st, oldPath);
    DeletedSpec(st, oldPath);
    CreatedSpec(d, newPath, true);
    RenamedEndsOld(st, oldPath, newPath);
    RenamedEndsNew(st, oldPath, newPath);
    RenamedKeepsOthers(st, oldPath, newPath);
  }

  lemma RenamedEndsOld(st: FsState, oldPath: Path, newPath: Path)
    requires Inv(st) && !st.disposed
    ensures EndsSourceOf(st, RenamedStep(st, oldPath, newPath, true), oldPath)
  {
    if oldPath in st.souls {
      var id := st.souls[oldPath];
      var d := DeletedStep(st, oldPath);
      DeletedKeepsInv(st, oldPath);
      assert d.sources[id] == Ended;
      if newPath in d.souls {
        assert d.souls[newPath] == st.souls[newPath];
        SourcesDistinct(st, oldPath, newPath);
      }
      assert id !in SourceOf(d.souls, newPath);
      CreatedSpec(d, newPath, true);
    }
  }

  lemma RenamedEndsNew(st: FsState, oldPath: Path, newPath: Path)
    requires Inv(st) && !st.disposed
    ensures EndsSourceOf(st, RenamedStep(st, oldPath, newPath, true), newPath)
  {
    var d := DeletedStep(st, oldPath);
    DeletedSpec(st, oldPath);
    CreatedSpec(d, newPath, true);
    if newPath != oldPath && newPath in st.souls {
      assert d.souls[newPath] == st.souls[newPath];
    }
  }

  lemma RenamedKeepsOthers(st: FsState, oldPath: Path, newPath: Path)
    requires Inv(st) && !st.disposed
    ensures var r := RenamedStep(st, oldPath, newPath, true);
      && OtherPathsKept(st, r, {oldPath, newPath})
      && KeepsOtherSources(st, r, SourceOf(st.souls, oldPath) + SourceOf(st.souls, newPath))
  {
    var d := DeletedStep(st, oldPath);
    DeletedSpec(st, oldPath);
    CreatedSpec(d, newPath, true);
    assert SourceOf(d.souls, newPath) <= SourceOf(st.souls, oldPath) + SourceOf(st.souls, newPath);
    assert SourceOf(st.souls, oldPath) <= SourceOf(st.souls, oldPath) + SourceOf(st.souls, newPath);
  }

  /**
   * addCreatedFile: any source p had is ended before p is mapped to the fresh
   * one, and exactly one item is delivered either way.
   */
  lemma AddCreatedFileSpec(st: FsState, p: Path)
    requires Inv(st) && !st.disposed
    ensures var r := AddCreatedFileStep(st, p);
      && Inv(r) && !r.disposed
      && RegistersFresh(st, r, p)
      && OtherPathsKept(st, r, {p})
      && EndsSourceOf(st, r, p)
      && KeepsOtherSources(st, r, SourceOf(st.souls, p))
  {
    AddCreatedFileIsCreated(st, p);
    CreatedSpec(st, p, true);
  }

  /** The add-or-replace path and the Created handler agree on every file. */
  lemma AddCreatedFileIsCreated(st: FsState, p: Path)
    requires Inv(st)
    ensures AddCreatedFileStep(st, p) == CreatedStep(st, p, true)
  {
    var d := DeletedStep(st, p);
    var id := |st.sources|;
    if p in st.souls {
      var prev := st.souls[p];
      assert EndAt(st.sources + [Alive], prev) == EndAt(st.sources, prev) + [Alive];
      assert CreatedStep(st, p, true) == CreatedStep(d, p, true);
      assert |d.sources| == id;
      assert d.souls[p := id] == st.souls[p := id];
    }
  }

  /** Only the error log grows; the registry and the live set are untouched. */
  lemma ErrorSpec(st: FsState, cause: string)
    requires Inv(st)
    ensures var r := ErrorStep(st, cause);
      && Inv(r)
      && r.souls == st.souls && r.sources == st.sources && r.items == st.items
      && r.errors == st.errors + [WatcherFailure(cause)]
  {
  }

  /** The live set only depends on which delivered sources have ended. */
  lemma {:induction false} LiveKeepsUnended(items: seq<Item>, s: seq<LifeState>, t: seq<LifeState>)
    requires |s| == |t|
    requires forall i | 0 <= i < |s| :: s[i].Ended? <==> t[i].Ended?
    ensures Live(items, s) == Live(items, t)
  {
    if items != [] {
      var last := items[|items| - 1];
      assert IsLive(s, last) <==> IsLive(t, last);
      LiveKeepsUnended(items[..|items| - 1], s, t);
    }
  }

  /**
   * Dispose makes every registered source immortal and ends none: the
   * registry, the delivered items and the live set are what they were, and
   * ending any registered source afterwards has no effect.
   */
  lemma DisposeSpec(st: FsState)
    requires Inv(st)
    ensures var r := DisposeStep(st);
      && Inv(r) && r.disposed
      && r.souls == st.souls && r.items == st.items && r.errors == st.errors
      && |r.sources| == |st.sources|
      && (forall p | p in r.souls :: r.sources[r.souls[p]] == Immortal)
      && (forall p | p in r.souls :: End(r.sources[r.souls[p]]) == r.sources[r.souls[p]])
      && (forall i | 0 <= i < |st.sources| :: r.sources[i].Ended? <==> st.sources[i].Ended?)
      && KeepsOtherSources(st, r, st.souls.Values)
      && Live(r.items, r.sources) == Live(st.items, st.sources)
  {
    var r := DisposeStep(st);
    assert RegisteredAlive(r) by {
      forall p | p in r.souls ensures r.souls[p] < |r.sources| && r.sources[r.souls[p]] == Immortal {
        assert r.souls[p] in st.souls.Values;
      }
    }
    assert LiveIffRegistered(r) by {
      forall i | 0 <= i < |r.items|
        ensures IsLive(r.sources, r.items[i]) <==> IsLive(st.sources, st.items[i])
      {
      }
    }
    LiveKeepsUnended(st.items, r.sources, st.sources);
  }

  /** Disposing twice is the same as disposing once. */
  lemma DisposeIdempotent(st: FsState)
    requires Inv(st)
    ensures DisposeStep(DisposeStep(st)) == DisposeStep(st)
  {
    var r := DisposeStep(st);
    assert ImmortalizeAll(r.sources, r.souls.Values) == r.sources;
  }

  /** Immortalizing one more source extends the set of immortalized ones. */
  lemma ImmortalizeOneMore(s: seq<LifeState>, done: set<SourceId>, id: SourceId)
    ensures ImmortalizeAt(ImmortalizeAll(s, done), id) == ImmortalizeAll(s, done + {id})
  {
  }

  /** The initial scan keeps the invariant and registers exactly the scanned paths. */
  lemma {:induction false} ScanSpec(st: FsState, paths: seq<Path>)
    requires Inv(st) && !st.disposed
    ensures var r := ScanSteps(st, paths);
      && Inv(r) && !r.disposed
      && (forall p :: p in r.souls <==> p in st.souls || p in paths)
  {
    ScanKeeps(st, paths);
    ScanKeys(st, paths);
  }

  lemma {:induction false} ScanKeeps(st: FsState, paths: seq<Path>)
    requires Inv(st) && !st.disposed
    ensures Inv(ScanSteps(st, paths))
  {
    if paths != [] {
      var init, p := paths[..|paths| - 1], paths[|paths| - 1];
      ScanKeeps(st, init);
      RegisterSpec(ScanSteps(st, init), p, InitialScanDuplicate);
    }
  }

  lemma {:induction false} ScanKeys(st: FsState, paths: seq<Path>)
    ensures forall p :: p in ScanSteps(st, paths).souls <==> p in st.souls || p in paths
  {
    if paths != [] {
      var init, last := paths[..|paths| - 1], paths[|paths| - 1];
      ScanKeys(st, init);
      assert paths == init + [last];
    }
  }

  /**
   * Each scanned path creates one source and yields either one delivered
   * item or one duplicate error, never both.
   */
  lemma {:induction false} ScanAccounting(st: FsState, paths: seq<Path>)
    ensures var r := ScanSteps(st, paths);
      && |r.items| + |r.errors| == |st.items| + |st.errors| + |paths|
      && |r.sources| == |st.sources| + |paths|
      && |st.errors| <= |r.errors|
      && (forall k | |st.errors| <= k < |r.errors| :: r.errors[k] == InitialScanDuplicate)
  {
    if paths != [] {
      ScanAccounting(st, paths[..|paths| - 1]);
    }
  }

  /**
   * The walk-through of a typical session: a directory holding a is scanned,
   * b is created, a deleted, b renamed to c, and the watcher disposed. After
   * each step the live set is what a subscriber would be given, and at the
   * end c's lifetime is immortal while a's and b's have ended.
   */
  lemma Walkthrough(a: Path, b: Path, c: Path)
    requires a != b && b != c && a != c
    ensures var s0 := ScanSteps(Initial, [a]);
      var s1 := CreatedStep(s0, b, true);
      var s2 := DeletedStep(s1, a);
      var s3 := RenamedStep(s2, b, c, true);
      var s4 := DisposeStep(s3);
      && Live(s0.items, s0.sources) == [Item(a, 0)]
      && Live(s1.items, s1.sources) == [Item(a, 0), Item(b, 1)]
      && Live(s2.items, s2.sources) == [Item(b, 1)]
      && Live(s3.items, s3.sources) == [Item(c, 2)]
      && s4.souls == map[c := 2]
      && s4.sources == [Ended, Ended, Immortal]
      && Live(s4.items, s4.sources) == [Item(c, 2)]
      && s4.errors == []
  {
    var s0 := WalkScan(a);
    var s1 := WalkCreate(s0, a, b);
    var s2 := WalkDelete(s1, a, b);
    var s3 := WalkRename(s2, a, b, c);
    WalkDispose(s3, a, b, c);
  }

  lemma WalkScan(a: Path) returns (s0: FsState)
    ensures s0 == ScanSteps(Initial, [a])
    ensures s0 == FsState(map[a := 0], [Alive], [Item(a, 0)], [], false)
    ensures Live(s0.items, s0.sources) == [Item(a, 0)]
  {
    s0 := ScanSteps(Initial, [a]);
    assert [a][..0] == [];
    assert ScanSteps(Initial, [a][..0]) == Initial;
    assert s0 == RegisterStep(ScanSteps(Initial, [a][..0]), a, InitialScanDuplicate);
  }

  lemma WalkCreate(s0: FsState, a: Path, b: Path) returns (s1: FsState)
    requires a != b
    requires s0 == FsState(map[a := 0], [Alive], [Item(a, 0)], [], false)
    ensures s1 == CreatedStep(s0, b, true)
    ensures s1 == FsState(map[a := 0, b := 1], [Alive, Alive], [Item(a, 0), Item(b, 1)], [], false)
    ensures Live(s1.items, s1.sources) == [Item(a, 0), Item(b, 1)]
  {
    s1 := CreatedStep(s0, b, true);
    assert s1 == RegisterStep(s0, b, CreatedDuplicate);
    assert [Item(a, 0), Item(b, 1)][..1] == [Item(a, 0)];
  }

  lemma WalkDelete(s1: FsState, a: Path, b: Path) returns (s2: FsState)
    requires a != b
    requires s1 == FsState(map[a := 0, b := 1], [Alive, Alive], [Item(a, 0), Item(b, 1)], [], false)
    ensures s2 == DeletedStep(s1, a)
    ensures s2 == FsState(map[b := 1], [Ended, Alive], s1.items, [], false)
    ensures Live(s2.items, s2.sources) == [Item(b, 1)]
  {
    s2 := DeletedStep(s1, a);
    assert s1.souls - {a} == map[b := 1];
    assert [Item(a, 0), Item(b, 1)][..1] == [Item(a, 0)];
  }

  lemma WalkRename(s2: FsState, a: Path, b: Path, c: Path) returns (s3: FsState)
    requires a != b && b != c && a != c
    requires s2 == FsState(map[b := 1], [Ended, Alive], [Item(a, 0), Item(b, 1)], [], false)
    ensures s3 == RenamedStep(s2, b, c, true)
    ensures s3 == FsState(map[c := 2], [Ended, Ended, Alive], [Item(a, 0), Item(b, 1), Item(c, 2)], [], false)
    ensures Live(s3.items, s3.sources) == [Item(c, 2)]
  {
    var d := DeletedStep(s2, b);
    assert s2.souls - {b} == map[];
    assert d == FsState(map[], [Ended, Ended], s2.items, [], false);
    s3 := RenamedStep(s2, b, c, true);
    assert s3 == CreatedStep(d, c, true);
    assert c !in d.souls;
    assert s3 == RegisterStep(d, c, CreatedDuplicate);
    assert s3.souls == map[c := 2];
    assert s3.sources == [Ended, Ended, Alive];
    assert s3.items == [Item(a, 0), Item(b, 1), Item(c, 2)];
    LiveOfThree(s3.items, s3.sources);
  }

  lemma WalkDispose(s3: FsState, a: Path, b: Path, c: Path)
    requires s3 == FsState(map[c := 2], [Ended, Ended, Alive], [Item(a, 0), Item(b, 1), Item(c, 2)], [], false)
    ensures var s4 := DisposeStep(s3);
      && s4.souls == map[c := 2]
      && s4.sources == [Ended, Ended, Immortal]
      && Live(s4.items, s4.sources) == [Item(c, 2)]
      && s4.errors == []
  {
    var s4 := DisposeStep(s3);
    forall v | v in s3.souls.Values ensures v == 2 {
      var k :| k in s3.souls && s3.souls[k] == v;
    }
    assert s3.souls[c] == 2;
    assert s3.souls.Values == {2};
    assert s4.sources == [Ended, Ended, Immortal];
    LiveOfThree(s4.items, s4.sources);
  }

  /** The live set of three items whose first two sources have ended. */
  lemma LiveOfThree(items: seq<Item>, sources: seq<LifeState>)
    requires |items| == 3 && |sources| == 3
    requires items[0].source == 0 && items[1].source == 1 && items[2].source == 2
    requires sources[0] == Ended && sources[1] == Ended && sources[2] != Ended
    ensures Live(items, sources) == [items[2]]
  {
    assert items[..2][..1][..0] == [];
    assert Live(items[..2][..1], sources) == [];
    assert Live(items[..2], sources) == [];
  }
}
