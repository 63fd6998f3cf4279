/**
 Collecting after an update was stopped half-way (`nxpk/src/commands/update.rs`,
 `nexpack-core/src/store.rs`): the new `current` is renamed into place before its gc root is written,
 and only roots protect.
 */
module Interrupted {
  import opened ByteCodec
  import opened Wire
  import opened Header
  import opened BundleFile
  import opened ContentStore
  import opened Update
  import opened Restart
  import opened Lifecycle
  import RestartExamples

  // ----- The links at each stop -----

  predicate SameLinks(st: StoreState, st': StoreState) {
    && st'.roots == st.roots && st'.apps.Keys == st.apps.Keys
    && forall a | a in st.apps :: st'.apps[a].current == st.apps[a].current
  }

  // Effects that change no `current` link and no root.
  predicate IsQuiet(e: Effect, app: Name) {
    || e.MakeLayerDir? || e.WriteImage?
    || ((e.UnlinkTmp? || e.LinkTmp? || e.WriteMeta?) && e.app == app)
  }

  lemma {:induction false} QuietEffects(st: StoreState, es: seq<Effect>, app: Name)
    requires app in st.apps && forall e | e in es :: IsQuiet(e, app)
    ensures SameLinks(st, DoAll(st, es))
    decreases es
  {
    if es != [] {
      assert es[0] in es;
      QuietEffects(Do(st, es[0]), es[1..], app);
    }
  }

  predicate DirsAreNamed(st: StoreState) { forall n | n in st.layers :: DIR_PREFIX <= n }

  lemma {:induction false} DirsStayNamed(st: StoreState, es: seq<Effect>)
    requires DirsAreNamed(st)
    ensures DirsAreNamed(DoAll(st, es))
    decreases es
  {
    if es != [] {
      DirsStayNamed(Do(st, es[0]), es[1..]);
    }
  }

  // What the first effects of a switch leave of the app's link and of the roots.
  predicate LinksAre(st: StoreState, app: Name, current: Option<Path>, roots: map<Name, Path>, st': StoreState) {
    && st'.roots == roots && st'.apps.Keys == st.apps.Keys
    && app in st.apps && st'.apps[app].current == current
    && forall a | a in st.apps && a != app :: st'.apps[a].current == st.apps[a].current
  }

  function RootsInSwitch(roots: map<Name, Path>, app: Name, digest: Bytes, j: nat): map<Name, Path> {
    if j < 4 then roots else if j == 4 then roots - {app} else roots[app := RootTarget(digest)]
  }

  lemma SwitchLinks(st: StoreState, app: Name, digest: Bytes, j: nat)
    requires app in st.apps && j <= 5
    ensures LinksAre(st, app, if j < 3 then st.apps[app].current else Some(CurrentTarget(digest)),
                     RootsInSwitch(st.roots, app, digest, j), DoAll(st, Switch(app, digest)[..j]))
  {
    hide Do, DoAll, CurrentTarget, RootTarget;
    var es := Switch(app, digest);
    if j < 3 {
      QuietEffects(st, es[..j], app);
    } else {
      var st3 := Do(Do(Do(st, es[0]), es[1]), es[2]);
      Renamed(st, app, CurrentTarget(digest));
      FirstThree(st, es, j);
      RootsReplaced(st3, app, RootTarget(digest));
      if j == 3 {
        assert es[3..3] == [];
        DoNothing(st3);
      } else if j == 4 {
        assert es[3..4] == [es[3]];
        DoOne(st3, es[3]);
      } else {
        assert es[3..5] == [es[3]] + [es[4]];
        DoAllConcat(st3, [es[3]], [es[4]]);
        DoOne(st3, es[3]);
        DoOne(Do(st3, es[3]), es[4]);
      }
    }
  }

  lemma Renamed(st: StoreState, app: Name, target: Path)
    requires app in st.apps
    ensures LinksAre(st, app, Some(target), st.roots,
                     Do(Do(Do(st, UnlinkTmp(app)), LinkTmp(app, target)), RenameTmp(app)))
  {
    var st1 := Do(st, UnlinkTmp(app));
    var st2 := Do(st1, LinkTmp(app, target));
    assert st2.apps[app].currentTmp == Some(target);
  }

  lemma RootsReplaced(st: StoreState, app: Name, target: Path)
    ensures Do(st, UnlinkRoot(app)) == st.(roots := st.roots - {app})
    ensures Do(Do(st, UnlinkRoot(app)), LinkRoot(app, target)) == st.(roots := st.roots[app := target])
  {
    assert (st.roots - {app})[app := target] == st.roots[app := target];
  }

  lemma FirstThree(st: StoreState, es: seq<Effect>, j: nat)
    requires 3 <= j <= |es|
    ensures DoAll(st, es[..j]) == DoAll(Do(Do(Do(st, es[0]), es[1]), es[2]), es[3..j])
  {
    hide Do;
    var a, b, c := es[..j], es[1..j], es[2..j];
    assert a[1..] == b && b[1..] == c && c[1..] == es[3..j];
    assert DoAll(st, a) == DoAll(Do(st, es[0]), b);
    assert DoAll(Do(st, es[0]), b) == DoAll(Do(Do(st, es[0]), es[1]), c);
  }

  // ----- Collecting there -----

  lemma CurrentTargetInjective(d: Bytes, d': Bytes)
    ensures CurrentTarget(d) == CurrentTarget(d') <==> d == d'
  {
    DirNameInjective(d, d');
    assert CurrentTarget(d)[4] == DirName(d) && CurrentTarget(d')[4] == DirName(d');
  }

  predicate RootNames(roots: map<Name, Path>, digest: Bytes) {
    exists r | r in roots :: FileName(roots[r]) == Some(DirName(digest))
  }

  // A collection keeps the image that `current` names exactly when a root names it.
  lemma CollectKeepsCurrentIff(st: StoreState, app: Name, digest: Bytes)
    requires WrittenByTheStore(st) && CurrentStored(st, app)
    requires st.apps[app].current == Some(CurrentTarget(digest))
    ensures CurrentStored(Collected(st), app) <==> RootNames(st.roots, digest)
  {
    hide Reachable, CurrentTarget, FileName;
    var d :| st.apps[app].current == Some(CurrentTarget(d)) && HasLayer(st, d);
    CurrentTargetInjective(d, digest);
    OnlyRootsProtect(st, DirName(digest));
    if CurrentStored(Collected(st), app) {
      var d' :| Collected(st).apps[app].current == Some(CurrentTarget(d')) && HasLayer(Collected(st), d');
      CurrentTargetInjective(d', digest);
    }
  }

  // The link is in place and its gc root is not.
  predicate BetweenLinkAndRoot(es: seq<Effect>, done: nat)
    requires done <= |es|
  {
    done > 0 && (es[done - 1].RenameTmp? || es[done - 1].UnlinkRoot?)
  }

  function WantedDigest(st: StoreState, app: Name, remote: Remote): Bytes {
    match Wanted(AppOrNew(st, app).meta, app, remote)
    case Ok(Some((_, release))) => NewDigest(release.layers)
    case _ => []
  }

  function RootsAfter(st: StoreState, app: Name, e: Effect): map<Name, Path> {
    if e.UnlinkRoot? then st.roots - {app} else st.roots
  }

  // What `k` of the effects leave of the link and the roots: `digest` is the new one once the link
  // has been switched, and nothing before.
  predicate LinksAfter(st: StoreState, app: Name, es: seq<Effect>, k: nat, digest: Bytes, roots: map<Name, Path>)
    requires k <= |es|
  {
    && app in st.apps
    && LinksAre(st, app, if digest == [] then st.apps[app].current else Some(CurrentTarget(digest)), roots,
                DoAll(st, es[..k]))
    && (if BetweenLinkAndRoot(es, k) then digest != [] && roots == RootsAfter(st, app, es[k - 1])
        else roots == if digest == [] then st.roots else st.roots[app := RootTarget(digest)])
  }

  lemma LinksInSwitch(st: StoreState, app: Name, wanted: Bytes, j: nat) returns (digest: Bytes, roots: map<Name, Path>)
    requires app in st.apps && j <= |SwitchIfStored(st, app, wanted)|
    ensures LinksAfter(st, app, SwitchIfStored(st, app, wanted), j, digest, roots)
    ensures digest in [[], wanted]
  {
    hide Do, DoAll, CurrentTarget, RootTarget, HasLayer;
    digest, roots := if j < 3 then [] else wanted, RootsInSwitch(st.roots, app, wanted, j);
    if SwitchIfStored(st, app, wanted) == [] {
      DoNothing(st);
    } else {
      SwitchLinks(st, app, wanted, j);
    }
  }

  lemma QuietAfter(st: StoreState, app: Name, es: seq<Effect>, k: nat)
    requires app in st.apps && k <= |es| && forall i | 0 <= i < k :: IsQuiet(es[i], app)
    ensures LinksAfter(st, app, es, k, [], st.roots)
  {
    hide DoAll;
    forall e | e in es[..k]
      ensures IsQuiet(e, app)
    {
      var i :| 0 <= i < k && es[i] == e;
    }
    QuietEffects(st, es[..k], app);
  }

  // The same after quiet effects.
  lemma LinksAfterQuiet(st: StoreState, app: Name, quiet: seq<Effect>, es: seq<Effect>, j: nat, digest: Bytes,
                        roots: map<Name, Path>)
    requires app in st.apps && SameLinks(st, DoAll(st, quiet)) && 0 < j <= |es|
    requires LinksAfter(DoAll(st, quiet), app, es, j, digest, roots)
    ensures LinksAfter(st, app, quiet + es, |quiet| + j, digest, roots)
  {
    hide Do, DoAll, CurrentTarget, RootTarget;
    var all := quiet + es;
    assert all[..|quiet| + j] == quiet + es[..j];
    DoAllConcat(st, quiet, es[..j]);
    assert all[|quiet| + j - 1] == es[j - 1];
  }

  // And still after one quiet effect more, once the link has its root.
  lemma LinksBeforeQuiet(st: StoreState, app: Name, es: seq<Effect>, e: Effect, digest: Bytes, roots: map<Name, Path>)
    requires app in st.apps && IsQuiet(e, app) && !BetweenLinkAndRoot(es, |es|)
    requires LinksAfter(st, app, es, |es|, digest, roots)
    ensures LinksAfter(st, app, es + [e], |es| + 1, digest, roots)
  {
    hide Do, DoAll, CurrentTarget, RootTarget;
    assert (es + [e])[..|es| + 1] == es + [e] && es[..|es|] == es;
    DoAllConcat(st, es, [e]);
    QuietEffects(DoAll(st, es), [e], app);
  }

  lemma LinksBefore(st: StoreState, app: Name, es: seq<Effect>, e: Effect, k: nat, digest: Bytes,
                    roots: map<Name, Path>)
    requires k <= |es| && LinksAfter(st, app, es, k, digest, roots)
    ensures LinksAfter(st, app, es + [e], k, digest, roots)
  {
    hide DoAll, LinksAre;
    assert (es + [e])[..k] == es[..k];
  }

  // The link and the roots after `k` effects of an update.
  lemma LinksAtBoundary(st: StoreState, app: Name, remote: Remote, hash: HashFn, k: nat)
      returns (digest: Bytes, roots: map<Name, Path>)
    requires app in st.apps && k <= |UpdatePlan(st, app, remote, hash).effects|
    ensures LinksAfter(st, app, UpdatePlan(st, app, remote, hash).effects, k, digest, roots)
    ensures digest in [[], WantedDigest(st, app, remote)]
  {
    hide Do, DoAll, Missing, Downloads, Encode, Wanted, ReleasePlan, SwitchIfStored, LinksAfter;
    digest, roots := [], st.roots;
    var wanted := Wanted(AppOrNew(st, app).meta, app, remote);
    var es := UpdatePlan(st, app, remote, hash).effects;
    if wanted.Err? || wanted.value == None {
      QuietAfter(st, app, es, k);
    } else {
      var (h, release) := wanted.value.value;
      var dl := Downloads(Missing(st, release.layers), remote, hash);
      var n, st1 := |dl.effects|, DoAll(st, dl.effects);
      PlanShape(st, app, h, release, remote, hash);
      DownloadsWriteNoMeta(Missing(st, release.layers), remote, hash);
      if k <= n {
        forall i | 0 <= i < k
          ensures IsQuiet(es[i], app)
        {
          assert es[i] == dl.effects[i] && dl.effects[i] in dl.effects;
        }
        QuietAfter(st, app, es, k);
      } else {
        digest, roots := LinksInRest(st, app, dl.effects, NewDigest(release.layers), es[|es| - 1], k - n);
      }
    }
  }

  lemma LinksInRest(st: StoreState, app: Name, quiet: seq<Effect>, wanted: Bytes, e: Effect, i: nat)
      returns (digest: Bytes, roots: map<Name, Path>)
    requires app in st.apps && IsQuiet(e, app) && forall e | e in quiet :: IsQuiet(e, app)
    requires 0 < i <= |SwitchIfStored(DoAll(st, quiet), app, wanted)| + 1
    ensures var switch := SwitchIfStored(DoAll(st, quiet), app, wanted);
            LinksAfter(st, app, (quiet + switch) + [e], |quiet| + i, digest, roots)
    ensures digest in [[], wanted]
  {
    hide Do, DoAll, SwitchIfStored, LinksAfter, LinksAre;
    var st1 := DoAll(st, quiet);
    var switch := SwitchIfStored(st1, app, wanted);
    var all := quiet + switch;
    var j := if i <= |switch| then i else |switch|;
    SwitchEndsRooted(st1, app, wanted);
    QuietEffects(st, quiet, app);
    if j == 0 {
      digest, roots := [], st.roots;
      assert all == quiet;
      QuietAfter(st, app, quiet, |quiet|);
    } else {
      digest, roots := LinksInSwitch(st1, app, wanted, j);
      LinksAfterQuiet(st, app, quiet, switch, j, digest, roots);
    }
    if i <= |switch| {
      LinksBefore(st, app, all, e, |quiet| + i, digest, roots);
    } else {
      RootedOnceSwitched(quiet, switch, app);
      LinksBeforeQuiet(st, app, all, e, digest, roots);
    }
  }

  lemma RootedOnceSwitched(quiet: seq<Effect>, switch: seq<Effect>, app: Name)
    requires !BetweenLinkAndRoot(switch, |switch|) && forall e | e in quiet :: IsQuiet(e, app)
    ensures !BetweenLinkAndRoot(quiet + switch, |quiet + switch|)
  {
    if quiet + switch != [] {
      var last := (quiet + switch)[|quiet + switch| - 1];
      assert if switch == [] then last in quiet else last == switch[|switch| - 1];
    }
  }

  lemma SwitchEndsRooted(st: StoreState, app: Name, digest: Bytes)
    ensures var switch := SwitchIfStored(st, app, digest);
            !BetweenLinkAndRoot(switch, |switch|)
  {
  }

  // The cut of a file write changes no link.
  lemma LinksAtStop(st: StoreState, es: seq<Effect>, stop: Stop, app: Name)
    requires LegalStop(es, stop) && app in DoAll(st, es[..stop.done]).apps
    requires forall e | e in es && e.WriteMeta? :: e.app == app
    ensures SameLinks(DoAll(st, es[..stop.done]), Stopped(st, es, stop))
    ensures DirsAreNamed(st) ==> DirsAreNamed(Stopped(st, es, stop))
  {
    hide DoAll;
    var before := DoAll(st, es[..stop.done]);
    if DirsAreNamed(st) {
      DirsStayNamed(st, es[..stop.done]);
    }
    if stop.cut.Some? {
      assert es[stop.done] in es;
    }
  }

  lemma OnlyItsMeta(st: StoreState, app: Name, remote: Remote, hash: HashFn)
    ensures forall e | e in UpdatePlan(st, app, remote, hash).effects && e.WriteMeta? :: e.app == app
  {
    hide Do, DoAll, Missing, Downloads, Encode, Wanted, ReleasePlan, HasLayer;
    var wanted := Wanted(AppOrNew(st, app).meta, app, remote);
    if wanted.Ok? && wanted.value.Some? {
      var (h, release) := wanted.value.value;
      PlanShape(st, app, h, release, remote, hash);
      DownloadsWriteNoMeta(Missing(st, release.layers), remote, hash);
    }
  }

  // After a stop anywhere, inside a write or not, a collection keeps the image that `current` names,
  // except between the switch of the link and that of its root: there it keeps the image exactly
  // when some root that is still in place names it.
  lemma CollectionAfterStopIff(st: StoreState, app: Name, remote: Remote, hash: HashFn, stop: Stop)
    requires Inv(st, hash) && app in st.apps && LegalStop(UpdatePlan(st, app, remote, hash).effects, stop)
    ensures var es := UpdatePlan(st, app, remote, hash).effects;
            CurrentStored(Collected(Stopped(st, es, stop)), app) <==>
            (BetweenLinkAndRoot(es, stop.done) ==>
               RootNames(RootsAfter(st, app, es[stop.done - 1]), WantedDigest(st, app, remote)))
  {
    hide Do, DoAll, UpdatePlan, Wanted, Collected, Stopped, CurrentTarget, RootTarget, WantedDigest, CurrentDigest,
      LegalStop, BetweenLinkAndRoot, CurrentStored, FileName, HasLayer, Parse;
    var es := UpdatePlan(st, app, remote, hash).effects;
    var st' := Stopped(st, es, stop);
    var was := CurrentOf(st, app, hash);
    StopInPlan(es, stop);
    var digest, roots := LinksAtBoundary(st, app, remote, hash, stop.done);
    assert LinksAfter(st, app, es, stop.done, digest, roots);
    OnlyItsMeta(st, app, remote, hash);
    LinksAtStop(st, es, stop, app);
    CurrentAlwaysStored(st, app, remote, hash, stop);
    var d := if digest == [] then was else digest;
    forall a | a in st'.apps && st'.apps[a].current.Some?
      ensures exists d :: st'.apps[a].current.value == CurrentTarget(d)
    {
      if a == app {
        assert st'.apps[a].current.value == CurrentTarget(d);
      } else {
        var other := CurrentOf(st, a, hash);
        assert st'.apps[a].current.value == CurrentTarget(other);
      }
    }
    CollectKeepsCurrentIff(st', app, d);
    if !BetweenLinkAndRoot(es, stop.done) {
      NamedByRoot(roots, app, d);
    }
  }

  lemma StopInPlan(es: seq<Effect>, stop: Stop)
    requires LegalStop(es, stop)
    ensures stop.done <= |es|
  {
  }

  lemma NamedByRoot(roots: map<Name, Path>, app: Name, d: Bytes)
    requires app in roots && roots[app] == RootTarget(d)
    ensures RootNames(roots, d)
  {
    assert FileName(roots[app]) == Some(DirName(d));
  }

  // The digest that an installed app's link and root name.
  lemma CurrentOf(st: StoreState, app: Name, hash: HashFn) returns (d: Bytes)
    requires Inv(st, hash) && app in st.apps
    ensures st.apps[app].current == Some(CurrentTarget(d)) && app in st.roots && st.roots[app] == RootTarget(d)
    ensures CurrentStored(st, app) && DirsAreNamed(st)
  {
    hide Parse, CurrentDigest, CurrentTarget, RootTarget;
    assert Consistent(st, app);
    d := CurrentDigest(Parse(st.apps[app].meta.value).value.layers);
    assert HasLayer(st, d);
  }

  // ----- A collection that loses the current image -----

  const FIRST: Bytes := [9]

  function FirstHeader(hash: HashFn): BundleHeader {
    RestartExamples.OldHeader().(layers := [LayerRef(hash(FIRST), 1, [])])
  }

  function FirstStore(hash: HashFn): StoreState {
    var d := hash(FIRST);
    StoreState(map[DirName(d) := Some(FIRST)],
               map[RestartExamples.APP := AppDir(Some(Encode(FirstHeader(hash))), Some(CurrentTarget(d)), None)],
               map[RestartExamples.APP := RootTarget(d)])
  }

  lemma FirstStoreInv(hash: HashFn)
    ensures Inv(FirstStore(hash), hash)
    ensures Parse(Encode(FirstHeader(hash))) == Ok(Located(FirstHeader(hash), 0, |Encode(FirstHeader(hash))|))
  {
    hide Parse, Encode, FindMagic;
    var h := FirstHeader(hash);
    NothingHasNoMagic();
    ParseEncoded([], h, []);
    assert [] + (Encode(h) + []) == Encode(h);
    RestartExamples.HexHasNoPrefix(hash(FIRST));
    assert CurrentDigest(h.layers) == hash(FIRST);
    assert Consistent(FirstStore(hash), RestartExamples.APP);
  }

  // An update to a second layer, stopped right after the rename of the link.
  lemma CollectionLosesCurrent(hash: HashFn)
    requires hash(FIRST) != hash(RestartExamples.DATA)
    ensures var st, app := FirstStore(hash), RestartExamples.APP;
            var remote := RestartExamples.Serving(RestartExamples.Once(hash));
            var es, stop := UpdatePlan(st, app, remote, hash).effects, Stop(5, None);
            && Inv(st, hash) && LegalStop(es, stop) && es[4] == RenameTmp(app)
            && CurrentStored(Stopped(st, es, stop), app)
            && !CurrentStored(Collected(Stopped(st, es, stop)), app)
  {
    hide Do, DoAll, Encode, Parse, Collected, Stopped, CurrentStored, Missing, Downloads, FetchLayer, Inv, HasLayer,
      CurrentTarget, RootTarget, ReleasePlan;
    var st, app, ls := FirstStore(hash), RestartExamples.APP, RestartExamples.Once(hash);
    var remote, d := RestartExamples.Serving(ls), hash(RestartExamples.DATA);
    FirstStoreInv(hash);
    var h := Located(FirstHeader(hash), 0, |Encode(FirstHeader(hash))|);
    var release := ReleaseInfo(RestartExamples.NEW, ls);
    assert Wanted(AppOrNew(st, app).meta, app, remote) == Ok(Some((h, release)));
    SecondLayerDownloads(hash);
    PlanShape(st, app, h, release, remote, hash);
    DownloadedIsStored(st, ls, remote, hash);
    RestartExamples.HexHasNoPrefix(d);
    assert ls[0] in ls && HexOf(ls[0]) == d;
    var es := UpdatePlan(st, app, remote, hash).effects;
    assert es[..7] == [MakeLayerDir(d), WriteImage(d, RestartExamples.DATA)] + Switch(app, d);
    var was := CurrentOf(st, app, hash);
    CurrentAlwaysStored(st, app, remote, hash, Stop(5, None));
    CollectionAfterStopIff(st, app, remote, hash, Stop(5, None));
    OnlyFirstRooted(hash);
  }

  lemma OnlyFirstRooted(hash: HashFn)
    requires hash(FIRST) != hash(RestartExamples.DATA)
    ensures !RootNames(FirstStore(hash).roots, hash(RestartExamples.DATA))
  {
    DirNameInjective(hash(FIRST), hash(RestartExamples.DATA));
  }

  lemma SecondLayerDownloads(hash: HashFn)
    requires hash(FIRST) != hash(RestartExamples.DATA)
    ensures var st, ls, d := FirstStore(hash), RestartExamples.Once(hash), hash(RestartExamples.DATA);
            Downloads(Missing(st, ls), RestartExamples.Serving(ls), hash)
            == Plan([MakeLayerDir(d), WriteImage(d, RestartExamples.DATA)], Ok(()))
  {
    hide Encode;
    var st, ls := FirstStore(hash), RestartExamples.Once(hash);
    RestartExamples.HexHasNoPrefix(hash(RestartExamples.DATA));
    DirNameInjective(hash(FIRST), hash(RestartExamples.DATA));
    assert ls[1..] == [] && Missing(st, []) == [];
    assert Missing(st, ls) == [ls[0]] + Missing(st, ls[1..]) == ls;
    RestartExamples.OnceDownloads(hash);
  }
}
