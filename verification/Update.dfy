/**
 Applying an update from a feed (`nxpk/src/commands/update.rs`, `nexpack-core/src/update.rs`).

 An update is a sequence of effects on the store, each one system call or one file write.  What
 the servers answer is a function of the URL.
 */
module Update {
  import opened ByteCodec
  import opened Wire
  import opened Header
  import opened BundleFile
  import opened ContentStore

  datatype LayerInfo = LayerInfo(digest: Bytes, url: Bytes, size: u64)
  datatype ReleaseInfo = ReleaseInfo(version: Bytes, layers: seq<LayerInfo>)
  datatype UpdateFeed = UpdateFeed(appId: Bytes, latest: Bytes, releases: seq<ReleaseInfo>)

  datatype Remote = Remote(feed: Bytes -> Option<UpdateFeed>, layer: Bytes -> Option<Bytes>)

  datatype UpdateError =
    | AppNotInstalled
    | BadMeta
    | FeedUnavailable
    | WrongApp
    | NoRelease
    | DownloadFailed
    | SizeMismatch
    | WrongDigest
    | ShortDigest

  type Done = Result<(), UpdateError>

  function FindRelease(releases: seq<ReleaseInfo>, version: Bytes): (r: Option<ReleaseInfo>)
    ensures r.Some? ==> r.value in releases && r.value.version == version
  {
    if releases == [] then None
    else if releases[0].version == version then Some(releases[0])
    else FindRelease(releases[1..], version)
  }

  predicate IsFirst(releases: seq<ReleaseInfo>, version: Bytes, release: ReleaseInfo) {
    exists i | 0 <= i < |releases| ::
      releases[i] == release && release.version == version && forall j | 0 <= j < i :: releases[j].version != version
  }

  // The release found is the first of that version, and nothing only when there is none.
  lemma {:induction false} FindsFirst(releases: seq<ReleaseInfo>, version: Bytes)
    ensures var r := FindRelease(releases, version);
            && (r == None <==> forall i | 0 <= i < |releases| :: releases[i].version != version)
            && (r.Some? ==> IsFirst(releases, version, r.value))
  {
    if releases != [] {
      if releases[0].version == version {
        assert IsFirst(releases, version, releases[0]);
      } else {
        var rest := releases[1..];
        FindsFirst(rest, version);
        assert forall i | 0 < i < |releases| :: releases[i] == rest[i - 1];
        var r := FindRelease(releases, version);
        if r.Some? {
          var i :| 0 <= i < |rest| && rest[i] == r.value && forall j | 0 <= j < i :: rest[j].version != version;
          assert releases[i + 1] == r.value;
        }
      }
    }
  }

  lemma FirstIsUnique(releases: seq<ReleaseInfo>, version: Bytes, a: ReleaseInfo, b: ReleaseInfo)
    requires IsFirst(releases, version, a) && IsFirst(releases, version, b)
    ensures a == b
  {
  }

  function HexOf(l: LayerInfo): Bytes { StripPrefix(l.digest) }

  // ----- Effects -----

  datatype Effect =
    | MakeLayerDir(digest: Bytes)
    | WriteImage(digest: Bytes, data: Bytes)
    | UnlinkTmp(app: Name)
    | LinkTmp(app: Name, target: Path)
    | RenameTmp(app: Name)
    | UnlinkRoot(app: Name)
    | LinkRoot(app: Name, target: Path)
    | WriteMeta(app: Name, data: Bytes)

  function SetApp(st: StoreState, app: Name, dir: AppDir): StoreState { st.(apps := st.apps[app := dir]) }

  function Do(st: StoreState, e: Effect): StoreState {
    match e
    case MakeLayerDir(d) => if DirName(d) in st.layers then st else st.(layers := st.layers[DirName(d) := None])
    case WriteImage(d, data) => WithLayer(st, data, d)
    case UnlinkTmp(app) => SetApp(st, app, AppOrNew(st, app).(currentTmp := None))
    case LinkTmp(app, target) => SetApp(st, app, AppOrNew(st, app).(currentTmp := Some(target)))
    case RenameTmp(app) =>
      SetApp(st, app, AppOrNew(st, app).(current := AppOrNew(st, app).currentTmp, currentTmp := None))
    case UnlinkRoot(app) => st.(roots := st.roots - {app})
    case LinkRoot(app, target) => st.(roots := st.roots[app := target])
    case WriteMeta(app, data) => SetApp(st, app, AppOrNew(st, app).(meta := Some(data)))
  }

  function DoAll(st: StoreState, es: seq<Effect>): StoreState
    decreases es
  {
    if es == [] then st else DoAll(Do(st, es[0]), es[1..])
  }

  lemma {:induction false} DoAllConcat(st: StoreState, a: seq<Effect>, b: seq<Effect>)
    ensures DoAll(st, a + b) == DoAll(DoAll(st, a), b)
    decreases a
  {
    hide Do;
    if a == [] {
      assert a + b == b;
    } else {
      assert (a + b)[1..] == a[1..] + b;
      DoAllConcat(Do(st, a[0]), a[1..], b);
    }
  }

  // ----- The plan -----

  function FetchLayer(l: LayerInfo, remote: Remote, hash: HashFn): Result<Bytes, UpdateError> {
    if |HexOf(l)| < 16 then Err(ShortDigest)
    else
      match remote.layer(l.url)
      case None => Err(DownloadFailed)
      case Some(data) =>
        if |data| != l.size then Err(SizeMismatch)
        else if hash(data) != HexOf(l) then Err(WrongDigest)
        else Ok(data)
  }

  function Missing(st: StoreState, ls: seq<LayerInfo>): seq<LayerInfo> {
    if ls == [] then []
    else if HasLayer(st, HexOf(ls[0])) then Missing(st, ls[1..])
    else [ls[0]] + Missing(st, ls[1..])
  }

  datatype Plan = Plan(effects: seq<Effect>, res: Done)

  // Download, check and store one after another, stopping at the first layer that fails.
  function Downloads(ls: seq<LayerInfo>, remote: Remote, hash: HashFn): Plan {
    if ls == [] then Plan([], Ok(()))
    else
      match FetchLayer(ls[0], remote, hash)
      case Err(e) => Plan([], Err(e))
      case Ok(data) =>
        var rest := Downloads(ls[1..], remote, hash);
        var d := HexOf(ls[0]);
        Plan([MakeLayerDir(d), WriteImage(d, data)] + rest.effects, rest.res)
  }

  function NewDigest(ls: seq<LayerInfo>): Bytes { if ls == [] then [] else HexOf(ls[|ls| - 1]) }

  // The new `current` is renamed into place; then the gc root follows.
  function Switch(app: Name, digest: Bytes): seq<Effect> {
    [ UnlinkTmp(app), LinkTmp(app, CurrentTarget(digest)), RenameTmp(app),
      UnlinkRoot(app), LinkRoot(app, RootTarget(digest)) ]
  }

  function SwitchIfStored(st: StoreState, app: Name, digest: Bytes): seq<Effect> {
    if digest != [] && HasLayer(st, digest) then Switch(app, digest) else []
  }

  function NewLayers(ls: seq<LayerInfo>): (r: seq<LayerRef>)
    ensures |r| == |ls| && forall i :: 0 <= i < |ls| ==> r[i] == LayerRef(ls[i].digest, ls[i].size, [])
  {
    seq(|ls|, i requires 0 <= i < |ls| => LayerRef(ls[i].digest, ls[i].size, []))
  }

  function NewHeader(h: BundleHeader, release: ReleaseInfo): BundleHeader {
    h.(appVersion := release.version, layers := NewLayers(release.layers))
  }

  function ReleasePlan(st: StoreState, app: Name, h: BundleHeader, release: ReleaseInfo, remote: Remote,
                       hash: HashFn): Plan
  {
    var dl := Downloads(Missing(st, release.layers), remote, hash);
    if dl.res.Err? then dl
    else
      var st1 := DoAll(st, dl.effects);
      Plan(dl.effects + (SwitchIfStored(st1, app, NewDigest(release.layers))
                         + [WriteMeta(app, Encode(NewHeader(h, release)))]),
           Ok(()))
  }

  // What the feed asks of an app with this metadata: nothing, an error, or a release.
  function Wanted(meta: Option<Bytes>, app: Name, remote: Remote)
    : Result<Option<(BundleHeader, ReleaseInfo)>, UpdateError>
  {
    if meta == None then Err(AppNotInstalled)
    else
      match Parse(meta.value)
      case Err(_) => Err(BadMeta)
      case Ok(h) =>
        if h.updateUrl == None then Ok(None)
        else
          match remote.feed(h.updateUrl.value)
          case None => Err(FeedUnavailable)
          case Some(feed) =>
            if feed.appId != app then Err(WrongApp)
            else if feed.latest == h.appVersion then Ok(None)
            else
              match FindRelease(feed.releases, feed.latest)
              case None => Err(NoRelease)
              case Some(release) => Ok(Some((h, release)))
  }

  function UpdatePlan(st: StoreState, app: Name, remote: Remote, hash: HashFn): Plan {
    match Wanted(AppOrNew(st, app).meta, app, remote)
    case Err(e) => Plan([], Err(e))
    case Ok(None) => Plan([], Ok(()))
    case Ok(Some((h, release))) => ReleasePlan(st, app, h, release, remote, hash)
  }

  // The store after an uninterrupted run.
  function Updated(st: StoreState, app: Name, remote: Remote, hash: HashFn): StoreState {
    DoAll(st, UpdatePlan(st, app, remote, hash).effects)
  }

  // ----- The code -----

  method MissingLayers(store: Store, ls: seq<LayerInfo>) returns (missing: seq<LayerInfo>)
    ensures missing == Missing(store.State(), ls)
  {
    missing := [];
    assert ls[0..] == ls;
    for i := 0 to |ls|
      invariant Missing(store.State(), ls) == missing + Missing(store.State(), ls[i..])
    {
      assert ls[i..][0] == ls[i] && ls[i..][1..] == ls[i + 1..];
      if !HasLayer(store.State(), HexOf(ls[i])) {
        missing := missing + [ls[i]];
      }
    }
  }

  method DownloadLayers(store: Store, missing: seq<LayerInfo>, remote: Remote, hash: HashFn) returns (res: Done)
    modifies store
    ensures var dl := Downloads(missing, remote, hash);
            store.State() == DoAll(old(store.State()), dl.effects) && res == dl.res
  {
    hide FetchLayer, Do;
    ghost var dl := Downloads(missing, remote, hash);
    assert missing[0..] == missing;
    for i := 0 to |missing|
      invariant DoAll(old(store.State()), dl.effects)
             == DoAll(store.State(), Downloads(missing[i..], remote, hash).effects)
      invariant dl.res == Downloads(missing[i..], remote, hash).res
    {
      assert missing[i..][0] == missing[i] && missing[i..][1..] == missing[i + 1..];
      var data := Fetch(missing[i], remote, hash);
      if data.Err? {
        return Err(data.error);
      }
      var d := HexOf(missing[i]);
      ghost var before := store.State();
      store.StoreLayer(data.value, d);
      StoringIsTwoEffects(before, d, data.value, Downloads(missing[i + 1..], remote, hash).effects);
    }
    return Ok(());
  }

  lemma StoringIsTwoEffects(st: StoreState, d: Bytes, data: Bytes, rest: seq<Effect>)
    ensures DoAll(st, [MakeLayerDir(d), WriteImage(d, data)] + rest) == DoAll(WithLayer(st, data, d), rest)
    ensures Do(Do(st, MakeLayerDir(d)), WriteImage(d, data)) == WithLayer(st, data, d)
  {
    var es := [MakeLayerDir(d), WriteImage(d, data)] + rest;
    assert es[1..][1..] == rest;
    assert Do(Do(st, MakeLayerDir(d)), WriteImage(d, data)) == WithLayer(st, data, d);
  }

  method Fetch(l: LayerInfo, remote: Remote, hash: HashFn) returns (r: Result<Bytes, UpdateError>)
    ensures r == FetchLayer(l, remote, hash)
  {
    var hex := HexOf(l);
    if |hex| < 16 {
      return Err(ShortDigest);
    }
    var answer := remote.layer(l.url);
    if answer == None {
      return Err(DownloadFailed);
    }
    var data := answer.value;
    if |data| != l.size {
      return Err(SizeMismatch);
    }
    var checked := VerifyDigest(hash, data, hex);
    if checked.Err? {
      return Err(WrongDigest);
    }
    return Ok(data);
  }

  method SwitchCurrent(store: Store, app: Name, digest: Bytes)
    requires app in store.apps
    modifies store
    ensures store.State() == DoAll(old(store.State()), Switch(app, digest))
  {
    hide DoAll, Switch;
    ghost var st := store.State();
    SwitchSteps(st, app, digest);
    ghost var dir := AppOrNew(st, app).(current := Some(CurrentTarget(digest)), currentTmp := None);
    store.apps := store.apps[app := store.apps[app].(currentTmp := None)];
    store.apps := store.apps[app := store.apps[app].(currentTmp := Some(CurrentTarget(digest)))];
    store.apps := store.apps[app := store.apps[app].(current := store.apps[app].currentTmp, currentTmp := None)];
    assert store.apps[app] == dir;
    assert store.apps == old(store.apps)[app := dir];
    store.AddGcRoot(app, digest);
  }

  // The outcome of the five effects.
  function Switched(st: StoreState, app: Name, digest: Bytes): StoreState {
    StoreState(st.layers,
               st.apps[app := AppOrNew(st, app).(current := Some(CurrentTarget(digest)), currentTmp := None)],
               st.roots[app := RootTarget(digest)])
  }

  lemma SwitchSteps(st: StoreState, app: Name, digest: Bytes)
    ensures DoAll(st, Switch(app, digest)) == Switched(st, app, digest)
  {
    var es := Switch(app, digest);
    var s1 := Do(st, es[0]);
    var s2 := Do(s1, es[1]);
    var s3 := Do(s2, es[2]);
    var s4 := Do(s3, es[3]);
    var s5 := Do(s4, es[4]);
    DoFive(st, es);
    assert s3.apps == st.apps[app := AppOrNew(st, app).(current := Some(CurrentTarget(digest)), currentTmp := None)];
    assert s5.roots == st.roots[app := RootTarget(digest)];
  }

  lemma DoFive(st: StoreState, es: seq<Effect>)
    requires |es| == 5
    ensures DoAll(st, es) == Do(Do(Do(Do(Do(st, es[0]), es[1]), es[2]), es[3]), es[4])
  {
    hide Do;
    var a, b, c, d := es[1..], es[2..], es[3..], es[4..];
    assert a[1..] == b && b[1..] == c && c[1..] == d && d[1..] == [];
    var s1 := Do(st, es[0]);
    var s2 := Do(s1, a[0]);
    var s3 := Do(s2, b[0]);
    var s4 := Do(s3, c[0]);
    assert DoAll(st, es) == DoAll(s1, a) == DoAll(s2, b) == DoAll(s3, c) == DoAll(s4, d);
    assert DoAll(Do(s4, d[0]), []) == Do(s4, d[0]);
  }

  method CheckAndApplyUpdates(store: Store, app: Name, remote: Remote, hash: HashFn) returns (res: Done)
    modifies store
    ensures var plan := UpdatePlan(old(store.State()), app, remote, hash);
            store.State() == DoAll(old(store.State()), plan.effects) && res == plan.res
  {
    hide Downloads, Missing, DoAll, Do, Encode, Parse, Switch;
    ghost var st := store.State();
    DoNothing(st);
    var meta := if app in store.apps then store.apps[app].meta else None;
    if meta == None {
      return Err(AppNotInstalled);
    }
    var parsed := Parse(meta.value);
    if parsed.Err? {
      return Err(BadMeta);
    }
    var header := parsed.value;
    if header.updateUrl == None {
      return Ok(());
    }
    var answer := remote.feed(header.updateUrl.value);
    if answer == None {
      return Err(FeedUnavailable);
    }
    var feed := answer.value;
    if feed.appId != app {
      return Err(WrongApp);
    }
    if feed.latest == header.appVersion {
      return Ok(());
    }
    var found := FindRelease(feed.releases, feed.latest);
    if found == None {
      return Err(NoRelease);
    }
    var release := found.value;
    res := ApplyRelease(store, app, header, release, remote, hash);
  }

  method ApplyRelease(store: Store, app: Name, header: BundleHeader, release: ReleaseInfo, remote: Remote, hash: HashFn)
    returns (res: Done)
    requires app in store.apps
    modifies store
    ensures var plan := ReleasePlan(old(store.State()), app, header, release, remote, hash);
            store.State() == DoAll(old(store.State()), plan.effects) && res == plan.res
  {
    hide Downloads, Missing, DoAll, Do, Encode, Switch, HasLayer;
    ghost var st := store.State();
    var missing := MissingLayers(store, release.layers);
    ghost var dl := Downloads(missing, remote, hash);
    DownloadsOnlyLayers(st, missing, remote, hash);
    var stored := DownloadLayers(store, missing, remote, hash);
    if stored.Err? {
      return Err(stored.error);
    }
    ghost var st1 := store.State();
    var newDigest := NewDigest(release.layers);
    ghost var switch := SwitchIfStored(st1, app, newDigest);
    if newDigest != [] && HasLayer(store.State(), newDigest) {
      SwitchCurrent(store, app, newDigest);
      SwitchSteps(st1, app, newDigest);
    } else {
      DoNothing(st1);
    }
    assert app in store.apps;
    var newHeader := header.(appVersion := release.version, layers := []);
    newHeader := newHeader.(layers := NewLayers(release.layers));
    var newMeta := Encode(newHeader);
    ghost var st2 := store.State();
    store.apps := store.apps[app := store.apps[app].(meta := Some(newMeta))];
    DoOne(st2, WriteMeta(app, newMeta));
    DoAllConcat(st1, switch, [WriteMeta(app, newMeta)]);
    DoAllConcat(st, dl.effects, switch + [WriteMeta(app, newMeta)]);
    MetaWritten(st2, app, newMeta);
    return Ok(());
  }

  lemma MetaWritten(st: StoreState, app: Name, data: Bytes)
    requires app in st.apps
    ensures Do(st, WriteMeta(app, data)) == st.(apps := st.apps[app := st.apps[app].(meta := Some(data))])
  {
  }

  lemma DoNothing(st: StoreState)
    ensures DoAll(st, []) == st
  {
  }

  lemma DoOne(st: StoreState, e: Effect)
    ensures DoAll(st, [e]) == Do(st, e)
  {
    hide Do;
    assert [e][1..] == [];
  }

  lemma {:induction false} DownloadsOnlyLayers(st: StoreState, ls: seq<LayerInfo>, remote: Remote, hash: HashFn)
    ensures var st' := DoAll(st, Downloads(ls, remote, hash).effects);
            st'.apps == st.apps && st'.roots == st.roots
    decreases ls
  {
    hide Do, FetchLayer;
    if ls != [] && FetchLayer(ls[0], remote, hash).Ok? {
      var d, data := HexOf(ls[0]), FetchLayer(ls[0], remote, hash).value;
      StoringIsTwoEffects(st, d, data, Downloads(ls[1..], remote, hash).effects);
      DownloadsOnlyLayers(WithLayer(st, data, d), ls[1..], remote, hash);
    }
  }

  // ----- What an update decides, and when it goes through -----

  // The feed that an app's metadata points to.
  predicate FeedIs(meta: Option<Bytes>, remote: Remote, h: BundleHeader, feed: UpdateFeed) {
    && meta.Some? && Parse(meta.value) == Ok(h) && h.updateUrl.Some?
    && remote.feed(h.updateUrl.value) == Some(feed)
  }

  // A release is applied exactly when the feed is the app's, names another version than the
  // installed one, and this is the first release of that version.
  lemma WantsReleaseIff(meta: Option<Bytes>, app: Name, remote: Remote, h: BundleHeader, release: ReleaseInfo)
    ensures Wanted(meta, app, remote) == Ok(Some((h, release))) <==>
            exists feed :: FeedIs(meta, remote, h, feed) && feed.appId == app && feed.latest != h.appVersion
                           && IsFirst(feed.releases, feed.latest, release)
  {
    hide Parse, IsFirst;
    forall feed | FeedIs(meta, remote, h, feed)
      ensures FindRelease(feed.releases, feed.latest) == Some(release) <==>
              IsFirst(feed.releases, feed.latest, release)
    {
      FindsFirstIff(feed.releases, feed.latest, release);
    }
    if Wanted(meta, app, remote) == Ok(Some((h, release))) {
      assert FeedIs(meta, remote, h, remote.feed(h.updateUrl.value).value);
    }
  }

  lemma FindsFirstIff(releases: seq<ReleaseInfo>, version: Bytes, release: ReleaseInfo)
    ensures FindRelease(releases, version) == Some(release) <==> IsFirst(releases, version, release)
  {
    FindsFirst(releases, version);
    if IsFirst(releases, version, release) {
      FirstIsUnique(releases, version, release, FindRelease(releases, version).value);
    }
  }

  // There is nothing to do exactly when the app has no update URL, or its feed names the installed version.
  lemma WantsNothingIff(meta: Option<Bytes>, app: Name, remote: Remote)
    ensures Wanted(meta, app, remote) == Ok(None) <==>
            meta.Some? && Parse(meta.value).Ok? &&
            var h := Parse(meta.value).value;
            h.updateUrl.Some? ==> exists feed :: FeedIs(meta, remote, h, feed)
                                                 && feed.appId == app && feed.latest == h.appVersion
  {
    hide Parse;
    if Wanted(meta, app, remote) == Ok(None) && Parse(meta.value).value.updateUrl.Some? {
      var h := Parse(meta.value).value;
      assert FeedIs(meta, remote, h, remote.feed(h.updateUrl.value).value);
    }
  }

  // And each of the five refusals.
  lemma WantsErrorIff(meta: Option<Bytes>, app: Name, remote: Remote)
    ensures Wanted(meta, app, remote) == Err(AppNotInstalled) <==> meta == None
    ensures Wanted(meta, app, remote) == Err(BadMeta) <==> meta.Some? && Parse(meta.value).Err?
    ensures Wanted(meta, app, remote) == Err(FeedUnavailable) <==>
            meta.Some? && Parse(meta.value).Ok? && Parse(meta.value).value.updateUrl.Some?
            && remote.feed(Parse(meta.value).value.updateUrl.value) == None
    ensures Wanted(meta, app, remote) == Err(WrongApp) <==>
            exists h, feed :: FeedIs(meta, remote, h, feed) && feed.appId != app
    ensures Wanted(meta, app, remote) == Err(NoRelease) <==>
            exists h, feed :: FeedIs(meta, remote, h, feed) && feed.appId == app && feed.latest != h.appVersion
                              && forall r | r in feed.releases :: r.version != feed.latest
  {
    hide Parse;
    if meta.Some? && Parse(meta.value).Ok? && Parse(meta.value).value.updateUrl.Some? {
      var h := Parse(meta.value).value;
      if remote.feed(h.updateUrl.value).Some? {
        var feed := remote.feed(h.updateUrl.value).value;
        assert FeedIs(meta, remote, h, feed);
        FindsFirst(feed.releases, feed.latest);
        assert forall r :: r in feed.releases ==> exists i | 0 <= i < |feed.releases| :: feed.releases[i] == r;
      }
    }
  }

  // The server delivers an image of the declared size and digest.
  predicate Obtainable(l: LayerInfo, remote: Remote, hash: HashFn) {
    && |HexOf(l)| >= 16 && remote.layer(l.url).Some?
    && |remote.layer(l.url).value| == l.size && hash(remote.layer(l.url).value) == HexOf(l)
  }

  lemma FetchedIff(l: LayerInfo, remote: Remote, hash: HashFn)
    ensures FetchLayer(l, remote, hash).Ok? <==> Obtainable(l, remote, hash)
    ensures FetchLayer(l, remote, hash).Ok? ==> remote.layer(l.url) == Some(FetchLayer(l, remote, hash).value)
  {
  }

  // What is wrong with a layer that cannot be had, in the order in which it is looked at.
  predicate FailsWith(l: LayerInfo, remote: Remote, hash: HashFn, e: UpdateError) {
    match e
    case ShortDigest => |HexOf(l)| < 16
    case DownloadFailed => |HexOf(l)| >= 16 && remote.layer(l.url) == None
    case SizeMismatch =>
      |HexOf(l)| >= 16 && remote.layer(l.url).Some? && |remote.layer(l.url).value| != l.size
    case WrongDigest =>
      && |HexOf(l)| >= 16 && remote.layer(l.url).Some? && |remote.layer(l.url).value| == l.size
      && hash(remote.layer(l.url).value) != HexOf(l)
    case _ => false
  }

  // The downloads go through exactly when every layer of the release is stored or can be had, and
  // otherwise fail with what is wrong with the first that is neither.
  lemma {:induction false} DownloadsGoThroughIff(st: StoreState, ls: seq<LayerInfo>, remote: Remote, hash: HashFn)
    ensures var res := Downloads(Missing(st, ls), remote, hash).res;
            && (res.Ok? <==> forall l | l in ls :: HasLayer(st, HexOf(l)) || Obtainable(l, remote, hash))
            && (res.Err? ==>
                  exists i | 0 <= i < |ls| ::
                    && !HasLayer(st, HexOf(ls[i])) && FailsWith(ls[i], remote, hash, res.error)
                    && forall j | 0 <= j < i :: HasLayer(st, HexOf(ls[j])) || Obtainable(ls[j], remote, hash))
  {
    hide HasLayer, FetchLayer, Obtainable, FailsWith;
    if ls != [] {
      var rest := ls[1..];
      DownloadsGoThroughIff(st, rest, remote, hash);
      assert forall l :: l in ls <==> l == ls[0] || l in rest;
      FetchedIff(ls[0], remote, hash);
      FailsWithItsError(ls[0], remote, hash);
      var ms := Missing(st, rest);
      if !HasLayer(st, HexOf(ls[0])) {
        assert ([ls[0]] + ms)[1..] == ms;
      }
      var res := Downloads(Missing(st, ls), remote, hash).res;
      if res.Err? {
        if HasLayer(st, HexOf(ls[0])) || Obtainable(ls[0], remote, hash) {
          var i :| 0 <= i < |rest| && !HasLayer(st, HexOf(rest[i])) && FailsWith(rest[i], remote, hash, res.error)
                   && forall j | 0 <= j < i :: HasLayer(st, HexOf(rest[j])) || Obtainable(rest[j], remote, hash);
          assert ls[i + 1] == rest[i] && forall j | 0 < j <= i :: ls[j] == rest[j - 1];
        }
      }
    }
  }

  lemma FailsWithItsError(l: LayerInfo, remote: Remote, hash: HashFn)
    ensures FetchLayer(l, remote, hash).Err? ==> FailsWith(l, remote, hash, FetchLayer(l, remote, hash).error)
  {
  }

  // So an update goes through exactly when it has nothing to do, or a release to apply of which
  // every layer is stored or can be had.
  lemma UpdateGoesThroughIff(st: StoreState, app: Name, remote: Remote, hash: HashFn)
    ensures UpdatePlan(st, app, remote, hash).res.Ok? <==>
            match Wanted(AppOrNew(st, app).meta, app, remote)
            case Err(_) => false
            case Ok(None) => true
            case Ok(Some((_, release))) =>
              forall l | l in release.layers :: HasLayer(st, HexOf(l)) || Obtainable(l, remote, hash)
  {
    hide Wanted, Downloads, Missing, Encode, HasLayer, Obtainable, SwitchIfStored, DoAll;
    var wanted := Wanted(AppOrNew(st, app).meta, app, remote);
    if wanted.Ok? && wanted.value.Some? {
      DownloadsGoThroughIff(st, wanted.value.value.1.layers, remote, hash);
    }
  }
}
