/**
 The content-addressed store (`nexpack-core/src/store.rs`).

 Paths are sequences of components; a digest and an app id are one component each.  The model of
 the directory tree has the layer directories with their images, the app directories with their
 metadata and links, and the gc roots.
 */
module ContentStore {
  import opened ByteCodec
  import opened BundleFile

  type Name = Bytes
  type Path = seq<Name>

  datatype AppDir = AppDir(meta: Option<Bytes>, current: Option<Path>, currentTmp: Option<Path>)

  datatype StoreState = StoreState(layers: map<Name, Option<Bytes>>, apps: map<Name, AppDir>, roots: map<Name, Path>)

  const EMPTY_STORE := StoreState(map[], map[], map[])
  const NO_APP := AppDir(None, None, None)

  const UP: Name := [0x2E, 0x2E] // ".."
  const LAYERS: Name := [0x6C, 0x61, 0x79, 0x65, 0x72, 0x73] // "layers"
  const APPS: Name := [0x61, 0x70, 0x70, 0x73] // "apps"
  const GC_ROOTS: Name := [0x67, 0x63, 0x2D, 0x72, 0x6F, 0x6F, 0x74, 0x73] // "gc-roots"
  const IMAGE: Name := [0x69, 0x6D, 0x61, 0x67, 0x65, 0x2E, 0x65, 0x72, 0x6F, 0x66, 0x73] // "image.erofs"
  const DIR_PREFIX: Name := [0x62, 0x6C, 0x61, 0x6B, 0x65, 0x33, 0x2D] // "blake3-"

  function DirName(digest: Bytes): Name { DIR_PREFIX + digest }

  lemma DirNameInjective(d: Bytes, d': Bytes)
    ensures DirName(d) == DirName(d') <==> d == d'
  {
    assert DirName(d)[7..] == d && DirName(d')[7..] == d';
  }

  // The targets of the two kinds of link.
  function CurrentTarget(digest: Bytes): Path { [UP, UP, UP, LAYERS, DirName(digest), IMAGE] }
  function RootTarget(digest: Bytes): Path { [UP, LAYERS, DirName(digest)] }

  function FileName(p: Path): Option<Name> {
    if p == [] || p[|p| - 1] == UP then None else Some(p[|p| - 1])
  }

  // ----- Operations, on the state -----

  predicate HasLayer(st: StoreState, digest: Bytes) {
    DirName(digest) in st.layers && st.layers[DirName(digest)].Some?
  }

  function LayerImage(st: StoreState, digest: Bytes): Bytes
    requires HasLayer(st, digest)
  {
    st.layers[DirName(digest)].value
  }

  function WithLayer(st: StoreState, data: Bytes, digest: Bytes): StoreState {
    st.(layers := st.layers[DirName(digest) := Some(data)])
  }

  function AppOrNew(st: StoreState, id: Name): AppDir { if id in st.apps then st.apps[id] else NO_APP }

  function WithApp(st: StoreState, id: Name, digest: Bytes, meta: Bytes): StoreState {
    st.(apps := st.apps[id := AppOrNew(st, id).(meta := Some(meta), current := Some(CurrentTarget(digest)))])
  }

  function WithoutApp(st: StoreState, id: Name): StoreState { st.(apps := st.apps - {id}) }

  function WithRoot(st: StoreState, name: Name, digest: Bytes): StoreState {
    st.(roots := st.roots[name := RootTarget(digest)])
  }

  // The names that the collection keeps: the last component of each root and of each `current`.
  predicate Reachable(st: StoreState, name: Name) {
    || (exists r | r in st.roots :: FileName(st.roots[r]) == Some(name))
    || (exists a | a in st.apps :: st.apps[a].current.Some? && FileName(st.apps[a].current.value) == Some(name))
  }

  function Collected(st: StoreState): StoreState {
    st.(layers := map name | name in st.layers && Reachable(st, name) :: st.layers[name])
  }

  // What becomes of a layer directory that the collection removes: a removal that fails may have
  // deleted the image already.
  datatype Removal = Gone | LeftWhole | LeftEmpty

  function CollectedWith(st: StoreState, removal: Name -> Removal): StoreState {
    st.(layers := map name | name in st.layers && (Reachable(st, name) || removal(name) != Gone) ::
                    if Reachable(st, name) || removal(name) == LeftWhole then st.layers[name] else None)
  }

  function Unreachable(st: StoreState): set<Name> { set name | name in st.layers && !Reachable(st, name) }

  // ----- The store itself -----

  class Store {
    var layers: map<Name, Option<Bytes>>
    var apps: map<Name, AppDir>
    var roots: map<Name, Path>

    constructor ()
      ensures State() == EMPTY_STORE
    {
      layers, apps, roots := map[], map[], map[];
    }

    function State(): StoreState
      reads this
    {
      StoreState(layers, apps, roots)
    }

    method StoreLayer(data: Bytes, digest: Bytes)
      modifies this
      ensures State() == WithLayer(old(State()), data, digest)
    {
      var dir := DirName(digest);
      if dir !in layers {
        layers := layers[dir := None];
      }
      layers := layers[dir := Some(data)];
    }

    method RegisterApp(id: Name, digest: Bytes, meta: Bytes)
      modifies this
      ensures State() == WithApp(old(State()), id, digest, meta)
    {
      if id !in apps {
        apps := apps[id := NO_APP];
      }
      apps := apps[id := apps[id].(meta := Some(meta))];
      apps := apps[id := apps[id].(current := None)];
      apps := apps[id := apps[id].(current := Some(CurrentTarget(digest)))];
      assert apps == old(apps)[id := apps[id]];
    }

    method RemoveApp(id: Name)
      modifies this
      ensures State() == WithoutApp(old(State()), id)
    {
      if id in apps {
        apps := apps - {id};
      }
      assert apps == old(apps) - {id};
    }

    method AddGcRoot(name: Name, digest: Bytes)
      modifies this
      ensures State() == WithRoot(old(State()), name, digest)
    {
      roots := roots - {name};
      roots := roots[name := RootTarget(digest)];
      assert roots == old(roots)[name := RootTarget(digest)];
    }

    // The directories are listed in any order.  A removal that fails is ignored, and counted.
    method Gc(removal: Name -> Removal) returns (removed: nat)
      modifies this
      ensures State() == CollectedWith(old(State()), removal)
      ensures removed == |Unreachable(old(State()))|
    {
      hide Reachable, Unreachable, Partly, CollectedWith;
      var reachable := ReachableNames();
      removed := 0;
      ghost var before := State();
      var todo := layers.Keys;
      PartlyStarts(before, removal);
      while todo != {}
        invariant todo <= before.layers.Keys && roots == before.roots && apps == before.apps
        invariant removed == |Unreachable(before) - todo|
        invariant layers == Partly(before, removal, todo)
        decreases todo
      {
        var name :| name in todo;
        PartlySteps(before, removal, todo, name);
        todo := todo - {name};
        if name !in reachable {
          match removal(name) {
            case Gone => layers := layers - {name};
            case LeftWhole =>
            case LeftEmpty => layers := layers[name := None];
          }
          removed := removed + 1;
        }
      }
      PartlyEnds(before, removal);
    }

    method ReachableNames() returns (reachable: set<Name>)
      ensures forall n :: n in reachable <==> Reachable(State(), n)
    {
      reachable := {};
      var links := roots.Keys;
      while links != {}
        invariant links <= roots.Keys
        invariant forall n :: n in reachable <==> exists r | r in roots.Keys - links :: FileName(roots[r]) == Some(n)
        decreases links
      {
        var r :| r in links;
        links := links - {r};
        var name := FileName(roots[r]);
        if name.Some? {
          reachable := reachable + {name.value};
        }
      }
      ghost var rooted := reachable;
      var ids := apps.Keys;
      while ids != {}
        invariant ids <= apps.Keys
        invariant forall n :: n in reachable <==>
                    || n in rooted
                    || exists a | a in apps.Keys - ids ::
                         apps[a].current.Some? && FileName(apps[a].current.value) == Some(n)
        decreases ids
      {
        var a :| a in ids;
        ids := ids - {a};
        if apps[a].current.Some? {
          var name := FileName(apps[a].current.value);
          if name.Some? {
            reachable := reachable + {name.value};
          }
        }
      }
    }
  }

  // The layers when the collection has not yet come to those of `todo`.
  ghost function Partly(st: StoreState, removal: Name -> Removal, todo: set<Name>): map<Name, Option<Bytes>> {
    map name | name in st.layers && (name in todo || Reachable(st, name) || removal(name) != Gone) ::
      if name in todo || Reachable(st, name) || removal(name) == LeftWhole then st.layers[name] else None
  }

  lemma PartlyStarts(st: StoreState, removal: Name -> Removal)
    ensures Partly(st, removal, st.layers.Keys) == st.layers
    ensures Unreachable(st) - st.layers.Keys == {}
  {
    hide Reachable;
  }

  lemma PartlyEnds(st: StoreState, removal: Name -> Removal)
    ensures Partly(st, removal, {}) == CollectedWith(st, removal).layers
    ensures CollectedWith(st, removal).apps == st.apps && CollectedWith(st, removal).roots == st.roots
    ensures Unreachable(st) - {} == Unreachable(st)
  {
    hide Reachable;
  }

  lemma PartlySteps(st: StoreState, removal: Name -> Removal, todo: set<Name>, name: Name)
    requires name in todo && todo <= st.layers.Keys
    ensures var before, after := Partly(st, removal, todo), Partly(st, removal, todo - {name});
            && name in before
            && after == if Reachable(st, name) || removal(name) == LeftWhole then before
                        else if removal(name) == Gone then before - {name} else before[name := None]
    ensures |Unreachable(st) - (todo - {name})| == |Unreachable(st) - todo| + if Reachable(st, name) then 0 else 1
  {
    hide Reachable;
    var un := Unreachable(st);
    assert un - (todo - {name}) == if Reachable(st, name) then un - todo else (un - todo) + {name};
  }

  // ----- What the collection keeps -----

  // Every `current` link is one that the code wrote, and every layer directory is named by a digest.
  ghost predicate WrittenByTheStore(st: StoreState) {
    && (forall a | a in st.apps && st.apps[a].current.Some? :: exists d :: st.apps[a].current.value == CurrentTarget(d))
    && (forall n | n in st.layers :: DIR_PREFIX <= n)
  }

  // The scan of the `current` links protects no layer: what survives is what a gc root names.
  lemma OnlyRootsProtect(st: StoreState, name: Name)
    requires WrittenByTheStore(st) && name in st.layers
    ensures name in Collected(st).layers <==> exists r | r in st.roots :: FileName(st.roots[r]) == Some(name)
    ensures name in Collected(st).layers ==> Collected(st).layers[name] == st.layers[name]
  {
    forall a | a in st.apps && st.apps[a].current.Some?
      ensures FileName(st.apps[a].current.value) != Some(name)
    {
      var d :| st.apps[a].current.value == CurrentTarget(d);
      assert IMAGE[0] != DIR_PREFIX[0];
    }
  }

  lemma SameReachable(st: StoreState, st': StoreState)
    requires st'.apps == st.apps && st'.roots == st.roots
    ensures forall n :: Reachable(st', n) == Reachable(st, n)
  {
  }

  // For any state, whoever wrote its links: a directory survives a collection exactly when it is the
  // last component of a gc root's target or of some app's `current`, other than "..".
  lemma SurvivesIff(st: StoreState, name: Name)
    ensures name in Collected(st).layers <==>
            && name in st.layers && name != Ascii("..")
            && (|| (exists r, dir | r in st.roots :: st.roots[r] == dir + [name])
                || (exists a, dir | a in st.apps :: st.apps[a].current == Some(dir + [name])))
  {
    hide Ascii;
    assert Ascii("..") == UP by { NamesAre(); }
    forall p: Path
      ensures FileName(p) == Some(name) <==> name != UP && exists dir :: p == dir + [name]
    {
      LastComponent(p, name);
    }
  }

  lemma LastComponent(p: Path, name: Name)
    ensures FileName(p) == Some(name) <==> name != UP && exists dir :: p == dir + [name]
  {
    if p != [] {
      assert p == p[..|p| - 1] + [p[|p| - 1]];
    }
  }

  // A collection changes nothing but the layers, and a second one removes nothing.
  lemma CollectTwice(st: StoreState)
    ensures Collected(st).apps == st.apps && Collected(st).roots == st.roots
    ensures Collected(Collected(st)) == Collected(st)
  {
    hide Reachable;
    var once := Collected(st);
    SameReachable(st, once);
    assert Collected(once).layers == once.layers;
  }

  // Whatever removals fail, what is reachable is kept, nothing else is new or changed, and a
  // later collection that succeeds ends as if this one had.
  lemma FailedRemovals(st: StoreState, removal: Name -> Removal)
    ensures var st' := CollectedWith(st, removal);
            && st'.apps == st.apps && st'.roots == st.roots
            && (forall n | n in Collected(st).layers :: n in st'.layers && st'.layers[n] == st.layers[n])
            && (forall n | n in st'.layers && st'.layers[n].Some? :: n in st.layers && st.layers[n] == st'.layers[n])
            && Collected(st') == Collected(st)
            && ((forall n | n in Unreachable(st) :: removal(n) == Gone) <==> st' == Collected(st))
  {
    hide Reachable;
    var st' := CollectedWith(st, removal);
    SameReachable(st, st');
    assert Collected(st').layers == Collected(st).layers;
    if forall n | n in Unreachable(st) :: removal(n) == Gone {
      assert st'.layers == Collected(st).layers;
    } else {
      var n :| n in Unreachable(st) && removal(n) != Gone;
      assert n in st'.layers && n !in Collected(st).layers;
    }
  }

  // The removals that the collection makes do what they do to unreachable directories alone, and
  // its count is of the directories that a collection without failures takes away.
  lemma RemovalsDo(st: StoreState, removal: Name -> Removal, name: Name)
    requires name in st.layers && !Reachable(st, name)
    ensures var st' := CollectedWith(st, removal);
            match removal(name)
            case Gone => name !in st'.layers
            case LeftWhole => name in st'.layers && st'.layers[name] == st.layers[name]
            case LeftEmpty => name in st'.layers && st'.layers[name] == None
    ensures |Unreachable(st)| == |st.layers| - |Collected(st).layers|
  {
    hide Reachable;
    var kept := Collected(st).layers.Keys;
    assert st.layers.Keys == Unreachable(st) + kept && Unreachable(st) !! kept;
  }

  // Removing an app takes its directory alone; its gc root and its layers stay.
  lemma RemovedApp(st: StoreState, id: Name, other: Name)
    ensures var st' := WithoutApp(st, id);
            && id !in st'.apps
            && (other != id ==> (other in st'.apps <==> other in st.apps))
            && (other != id && other in st.apps ==> st'.apps[other] == st.apps[other])
            && st'.layers == st.layers && st'.roots == st.roots
  {
  }

  lemma RootedLayerSurvives(st: StoreState, name: Name, digest: Bytes, removal: Name -> Removal)
    requires name in st.roots && st.roots[name] == RootTarget(digest) && HasLayer(st, digest)
    ensures var st' := CollectedWith(st, removal);
            HasLayer(st', digest) && LayerImage(st', digest) == LayerImage(st, digest)
  {
    assert FileName(st.roots[name]) == Some(DirName(digest));
  }

  // ----- Where the links point -----

  // Following a relative link from the directory it lies in.
  function Resolve(dir: Path, target: Path): Path
    decreases |target|
  {
    if target == [] then dir
    else if target[0] == UP then Resolve(if dir == [] then [] else dir[..|dir| - 1], target[1..])
    else Resolve(dir + [target[0]], target[1..])
  }

  function ImagePath(root: Path, digest: Bytes): Path {
    root + [Ascii("layers"), Ascii("blake3-") + digest, Ascii("image.erofs")]
  }

  lemma AppsIs()
    ensures Ascii("apps") == APPS
  {
  }

  lemma NamesAre()
    ensures LAYERS == Ascii("layers") && APPS == Ascii("apps") && GC_ROOTS == Ascii("gc-roots")
    ensures IMAGE == Ascii("image.erofs") && DIR_PREFIX == Ascii("blake3-") && UP == Ascii("..")
  {
  }

  lemma ResolveDown(dir: Path, down: Path)
    requires UP !in down
    ensures Resolve(dir, down) == dir + down
    decreases |down|
  {
    if down == [] {
      assert dir + [] == dir;
    } else {
      ResolveDown(dir + [down[0]], down[1..]);
      assert dir + [down[0]] + down[1..] == dir + down;
    }
  }

  // A gc root resolves to the layer directory it names.
  lemma RootLinkResolves(root: Path, digest: Bytes)
    ensures Resolve(root + [Ascii("gc-roots")], RootTarget(digest))
         == root + [Ascii("layers"), Ascii("blake3-") + digest]
  {
    NamesAre();
    var dir := root + [GC_ROOTS];
    var down := [LAYERS, DirName(digest)];
    assert RootTarget(digest)[1..] == down && dir[..|dir| - 1] == root;
    assert DirName(digest)[0] != UP[0];
    ResolveDown(root, down);
  }

  lemma CurrentLeads(root: Path, id: Path, digest: Bytes)
    requires root != [] && id != []
    ensures var link := Resolve(root + [APPS] + id, CurrentTarget(digest));
            && (link == root + InStore(digest) <==> |id| == 2)
            && (|id| == 1 ==> link == root[..|root| - 1] + InStore(digest))
  {
    hide Resolve, DirName, CurrentTarget;
    var down := InStore(digest);
    CurrentClimbs(digest);
    ClimbThree(root + [APPS] + id, down);
    TopOf(root, APPS, id);
    CancelRight((root + [APPS] + id)[..|root| + |id| - 2], root, down);
  }

  // The `current` link climbs three directories, but an app directory lies only two below the
  // store: for an app id of `n` components the link leads to the stored image exactly when
  // `n` is 2, and for a plain id it leaves the store.
  lemma CurrentLinkResolvesIff(root: Path, id: Path, digest: Bytes)
    requires root != [] && id != []
    ensures var link := Resolve(root + [Ascii("apps")] + id, CurrentTarget(digest));
            && (link == ImagePath(root, digest) <==> |id| == 2)
            && (|id| == 1 ==> link == ImagePath(root[..|root| - 1], digest))
  {
    hide Resolve, InStore, CurrentTarget, ImagePath, Ascii;
    AppsIs();
    CurrentLeads(root, id, digest);
    ImagePathIs(root, digest);
    ImagePathIs(root[..|root| - 1], digest);
  }

  function InStore(digest: Bytes): Path { [LAYERS, DirName(digest), IMAGE] }

  lemma ImagePathIs(root: Path, digest: Bytes)
    ensures ImagePath(root, digest) == root + InStore(digest)
  {
    NamesAre();
  }

  lemma CurrentClimbs(digest: Bytes)
    ensures UP !in InStore(digest) && CurrentTarget(digest) == [UP, UP, UP] + InStore(digest)
  {
    NotUp(digest);
  }

  lemma TopOf(root: Path, apps: Name, id: Path)
    requires root != [] && id != []
    ensures (root + [apps] + id)[..|root| + |id| - 2] == root <==> |id| == 2
    ensures |id| == 1 ==> (root + [apps] + id)[..|root| + |id| - 2] == root[..|root| - 1]
  {
  }

  lemma ClimbThree(dir: Path, down: Path)
    requires |dir| >= 3 && UP !in down
    ensures Resolve(dir, [UP, UP, UP] + down) == dir[..|dir| - 3] + down
  {
    hide Resolve;
    var d1, d2 := dir[..|dir| - 1], dir[..|dir| - 2];
    UpFirst(down);
    ResolveUp(dir, [UP, UP] + down);
    ResolveUp(d1, [UP] + down);
    DropTwice(dir, 1);
    ResolveUp(d2, down);
    DropTwice(dir, 2);
    ResolveDown(dir[..|dir| - 3], down);
  }

  lemma UpFirst(down: Path)
    ensures [UP, UP, UP] + down == [UP] + ([UP, UP] + down)
    ensures [UP, UP] + down == [UP] + ([UP] + down)
  {
  }

  lemma DropTwice(dir: Path, n: nat)
    requires n < |dir|
    ensures dir[..|dir| - n][..|dir| - n - 1] == dir[..|dir| - n - 1]
  {
  }

  lemma CancelRight(a: Path, b: Path, c: Path)
    ensures a + c == b + c <==> a == b
  {
    if a + c == b + c {
      assert a == (a + c)[..|a + c| - |c|] && b == (b + c)[..|b + c| - |c|];
    }
  }

  lemma ResolveUp(dir: Path, rest: Path)
    requires dir != []
    ensures Resolve(dir, [UP] + rest) == Resolve(dir[..|dir| - 1], rest)
  {
    assert ([UP] + rest)[1..] == rest;
  }

  lemma NotUp(digest: Bytes)
    ensures DirName(digest) != UP
  {
    assert DirName(digest)[0] != UP[0];
  }
}
