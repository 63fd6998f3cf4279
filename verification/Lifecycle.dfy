/**
 Installing, mounting, updating, removing and collecting, as runs over one store
 (`nxpk/src/commands/install.rs`, `nexpackd/src/main.rs`, `nxpk/src/commands/update.rs`,
 `nxpk/src/commands/remove.rs`, `nexpack-core/src/store.rs`).
 */
module Lifecycle {
  import opened ByteCodec
  import opened Wire
  import opened Header
  import opened BundleFile
  import opened ContentStore
  import opened Update
  import Restart

  datatype Outcome = Outcome(st: StoreState, res: Result<(), Error>)

  // The layer loops of `install` and of a mount request.  Installing checks each layer that it
  // stores; mounting has checked all of them before.
  function StoreLayers(st: StoreState, b: Bundle, hash: HashFn, check: bool, i: nat): Outcome
    decreases |b.header.layers| - i
  {
    if i >= |b.header.layers| then Outcome(st, Ok(()))
    else
      var d := DigestHex(b.header.layers[i]);
      if HasLayer(st, d) then StoreLayers(st, b, hash, check, i + 1)
      else
        match b.LayerAt(i)
        case Err(e) => Outcome(st, Err(e))
        case Ok(data) =>
          if check && hash(data) != d then Outcome(st, Err(DigestMismatch(d, hash(data))))
          else StoreLayers(WithLayer(st, data, d), b, hash, check, i + 1)
  }

  function CurrentDigest(ls: seq<LayerRef>): Bytes { if ls == [] then [] else DigestHex(ls[|ls| - 1]) }

  function Registered(st: StoreState, h: BundleHeader): StoreState {
    WithRoot(WithApp(st, h.appId, CurrentDigest(h.layers), Encode(h)), h.appId, CurrentDigest(h.layers))
  }

  function Installed(st: StoreState, data: Bytes, hash: HashFn): Outcome {
    match ParseBundle(data)
    case Err(e) => Outcome(st, Err(e))
    case Ok(b) =>
      var stored := StoreLayers(st, b, hash, true, 0);
      if stored.res.Err? then stored else Outcome(Registered(stored.st, b.header), Ok(()))
  }

  function Mounted(st: StoreState, data: Bytes, hash: HashFn): Outcome {
    match ParseBundle(data)
    case Err(e) => Outcome(st, Err(e))
    case Ok(b) =>
      match b.VerifyLayers(hash)
      case Err(e) => Outcome(st, Err(e))
      case Ok(_) => StoreLayers(st, b, hash, false, 0)
  }

  // ----- The code -----

  method StoreBundleLayers(store: Store, b: Bundle, hash: HashFn, check: bool) returns (res: Result<(), Error>)
    modifies store
    ensures Outcome(store.State(), res) == StoreLayers(old(store.State()), b, hash, check, 0)
  {
    hide Bundle.LayerAt, HasLayer, WithLayer;
    for i := 0 to |b.header.layers|
      invariant StoreLayers(old(store.State()), b, hash, check, 0) == StoreLayers(store.State(), b, hash, check, i)
    {
      var digest := DigestHex(b.header.layers[i]);
      if !HasLayer(store.State(), digest) {
        var data := b.ExtractLayer(i);
        if data.Err? {
          return Err(data.error);
        }
        if check {
          var checked := VerifyDigest(hash, data.value, digest);
          if checked.Err? {
            return checked;
          }
        }
        store.StoreLayer(data.value, digest);
      }
    }
    return Ok(());
  }

  method Install(store: Store, data: Bytes, hash: HashFn) returns (res: Result<(), Error>)
    modifies store
    ensures Outcome(store.State(), res) == Installed(old(store.State()), data, hash)
  {
    hide StoreLayers, Parse, Encode;
    var parsed := ParseBundle(data);
    if parsed.Err? {
      return Err(parsed.error);
    }
    var b := parsed.value;
    var stored := StoreBundleLayers(store, b, hash, true);
    if stored.Err? {
      return stored;
    }
    var ls := b.header.layers;
    var current := if ls == [] then [] else DigestHex(ls[|ls| - 1]);
    var meta := Encode(b.header);
    store.RegisterApp(b.header.appId, current, meta);
    store.AddGcRoot(b.header.appId, current);
    return Ok(());
  }

  method StoreForMount(store: Store, data: Bytes, hash: HashFn) returns (res: Result<(), Error>)
    modifies store
    ensures Outcome(store.State(), res) == Mounted(old(store.State()), data, hash)
  {
    hide StoreLayers, Parse, Bundle.VerifyFrom;
    var parsed := ParseBundle(data);
    if parsed.Err? {
      return Err(parsed.error);
    }
    var b := parsed.value;
    var verified := b.VerifyLayers(hash);
    if verified.Err? {
      return verified;
    }
    res := StoreBundleLayers(store, b, hash, false);
  }

  // ----- The invariant -----

  // Every layer directory is named by a digest, and the image in it is the one its name promises.
  predicate ContentAddressed(st: StoreState, hash: HashFn) {
    forall n | n in st.layers :: DIR_PREFIX <= n && (st.layers[n].Some? ==> n == DirName(hash(st.layers[n].value)))
  }

  // The digest named by an app's `current`, by its gc root and by the last layer of its metadata
  // is the same, and its image is stored.
  predicate Consistent(st: StoreState, app: Name)
    requires app in st.apps
  {
    && st.apps[app].meta.Some? && Parse(st.apps[app].meta.value).Ok?
    && var ls := Parse(st.apps[app].meta.value).value.layers;
    && ls != []
    && st.apps[app].current == Some(CurrentTarget(CurrentDigest(ls)))
    && app in st.roots && st.roots[app] == RootTarget(CurrentDigest(ls))
    && HasLayer(st, CurrentDigest(ls))
  }

  predicate Inv(st: StoreState, hash: HashFn) {
    ContentAddressed(st, hash) && forall a | a in st.apps :: Consistent(st, a)
  }

  lemma ImageHasDigest(st: StoreState, hash: HashFn, d: Bytes)
    requires ContentAddressed(st, hash) && HasLayer(st, d)
    ensures hash(LayerImage(st, d)) == d
  {
    DirNameInjective(d, hash(LayerImage(st, d)));
  }

  // The step from one state to another that leaves the apps and roots alone and keeps the images.
  predicate OnlyAddsLayers(st: StoreState, st': StoreState) {
    && st'.apps == st.apps && st'.roots == st.roots
    && forall n | n in st.layers && st.layers[n].Some? :: n in st'.layers && st'.layers[n] == st.layers[n]
  }

  lemma AddingKeepsInv(st: StoreState, st': StoreState, hash: HashFn)
    requires Inv(st, hash) && OnlyAddsLayers(st, st') && ContentAddressed(st', hash)
    ensures Inv(st', hash)
  {
    hide Parse, CurrentDigest;
    forall a | a in st'.apps
      ensures Consistent(st', a)
    {
      assert Consistent(st, a);
    }
  }

  lemma StoreOne(st: StoreState, data: Bytes, hash: HashFn)
    requires ContentAddressed(st, hash)
    ensures ContentAddressed(WithLayer(st, data, hash(data)), hash)
    ensures !HasLayer(st, hash(data)) ==> OnlyAddsLayers(st, WithLayer(st, data, hash(data)))
  {
  }

  // Every layer stored by the loop hashes to its name, provided it was checked by the loop or before it.
  lemma {:induction false} StoreLayersKeeps(st: StoreState, b: Bundle, hash: HashFn, check: bool, i: nat)
    requires ContentAddressed(st, hash)
    requires check || forall j | i <= j < |b.header.layers| :: LayerVerifies(b, hash, j)
    ensures var o := StoreLayers(st, b, hash, check, i);
            && ContentAddressed(o.st, hash) && OnlyAddsLayers(st, o.st)
            && (o.res.Ok? ==> forall j | i <= j < |b.header.layers| :: HasLayer(o.st, DigestHex(b.header.layers[j])))
    decreases |b.header.layers| - i
  {
    hide Bundle.LayerAt, ContentAddressed, WithLayer;
    if i < |b.header.layers| {
      var d := DigestHex(b.header.layers[i]);
      if HasLayer(st, d) {
        StoreLayersKeeps(st, b, hash, check, i + 1);
      } else if b.LayerAt(i).Ok? {
        var data := b.LayerAt(i).value;
        assert check || LayerVerifies(b, hash, i);
        if hash(data) == d {
          StoreOne(st, data, hash);
          Restart.NowStored(st, data, d);
          StoreLayersKeeps(WithLayer(st, data, d), b, hash, check, i + 1);
        }
      }
    }
  }

  // It makes no directory for anything but its layers.
  lemma {:induction false} StoresOnlyItsLayers(st: StoreState, b: Bundle, hash: HashFn, check: bool, i: nat, n: Name)
    requires n in StoreLayers(st, b, hash, check, i).st.layers && n !in st.layers
    ensures exists j | i <= j < |b.header.layers| :: n == DirName(DigestHex(b.header.layers[j]))
    decreases |b.header.layers| - i
  {
    hide Bundle.LayerAt, HasLayer, DirName;
    var d := DigestHex(b.header.layers[i]);
    if HasLayer(st, d) {
      StoresOnlyItsLayers(st, b, hash, check, i + 1, n);
    } else if n != DirName(d) {
      StoresOnlyItsLayers(WithLayer(st, b.LayerAt(i).value, d), b, hash, check, i + 1, n);
    }
  }

  // Registering keeps the invariant exactly when the bundle has a layer.
  lemma RegisteredInvIff(st: StoreState, h: BundleHeader, hash: HashFn)
    requires Inv(st, hash) && Normal(h) == h
    requires forall j | 0 <= j < |h.layers| :: HasLayer(st, DigestHex(h.layers[j]))
    ensures Inv(Registered(st, h), hash) <==> h.layers != []
  {
    hide Parse, Encode, FindMagic;
    var st' := Registered(st, h);
    NothingHasNoMagic();
    ParseEncoded([], h, []);
    assert [] + (Encode(h) + []) == Encode(h);
    assert Parse(st'.apps[h.appId].meta.value).value.layers == h.layers;
    if h.layers != [] {
      forall a | a in st'.apps
        ensures Consistent(st', a)
      {
        if a != h.appId {
          assert Consistent(st, a);
        }
      }
    } else {
      assert !Consistent(st', h.appId);
    }
  }

  // ----- Each operation -----

  // An install keeps the invariant exactly when the bundle does not parse or has a layer.
  lemma InstallKeepsInvIff(st: StoreState, data: Bytes, hash: HashFn)
    requires Inv(st, hash)
    ensures Inv(Installed(st, data, hash).st, hash) <==>
            (ParseBundle(data).Ok? ==> ParseBundle(data).value.header.layers != [])
  {
    hide Parse, Registered, Encode, Consistent, Bundle.LayerAt, HasLayer;
    if ParseBundle(data).Ok? {
      var b := ParseBundle(data).value;
      var stored := StoreLayers(st, b, hash, true, 0);
      StoreLayersKeeps(st, b, hash, true, 0);
      AddingKeepsInv(st, stored.st, hash);
      ParsedIsNormal(data);
      if stored.res.Ok? {
        RegisteredInvIff(stored.st, b.header, hash);
      }
    }
  }

  lemma MountKeepsInv(st: StoreState, data: Bytes, hash: HashFn)
    requires Inv(st, hash)
    ensures Inv(Mounted(st, data, hash).st, hash)
  {
    hide Parse, StoreLayers, Consistent, Bundle.VerifyLayers;
    if ParseBundle(data).Ok? && ParseBundle(data).value.VerifyLayers(hash).Ok? {
      var b := ParseBundle(data).value;
      VerifiedIff(b, hash);
      StoreLayersKeeps(st, b, hash, false, 0);
      AddingKeepsInv(st, StoreLayers(st, b, hash, false, 0).st, hash);
    }
  }

  lemma RemoveKeepsInv(st: StoreState, app: Name, hash: HashFn)
    requires Inv(st, hash)
    ensures Inv(WithoutApp(st, app), hash)
  {
    hide Parse;
    forall a | a in WithoutApp(st, app).apps
      ensures Consistent(WithoutApp(st, app), a)
    {
      assert Consistent(st, a);
    }
  }

  // A collection keeps the current image of every installed app, so it keeps the invariant,
  // whatever removals fail.
  lemma GcKeepsInv(st: StoreState, removal: Name -> Removal, hash: HashFn)
    requires Inv(st, hash)
    ensures Inv(CollectedWith(st, removal), hash)
  {
    hide Parse, CurrentDigest, Reachable;
    forall a | a in st.apps
      ensures Consistent(CollectedWith(st, removal), a)
    {
      assert Consistent(st, a);
      RootedLayerSurvives(st, a, CurrentDigest(Parse(st.apps[a].meta.value).value.layers), removal);
    }
  }

  // ----- Updates -----

  lemma {:induction false} DownloadsAreChecked(st: StoreState, ls: seq<LayerInfo>, remote: Remote, hash: HashFn)
    requires ContentAddressed(st, hash)
    ensures ContentAddressed(DoAll(st, Downloads(ls, remote, hash).effects), hash)
    decreases ls
  {
    hide Do, DoAll, ContentAddressed, WithLayer;
    DoNothing(st);
    if ls != [] && FetchLayer(ls[0], remote, hash).Ok? {
      var d, data := HexOf(ls[0]), FetchLayer(ls[0], remote, hash).value;
      StoreOne(st, data, hash);
      StoringIsTwoEffects(st, d, data, Downloads(ls[1..], remote, hash).effects);
      DownloadsAreChecked(WithLayer(st, data, d), ls[1..], remote, hash);
    }
  }

  // The downloads of an update add checked images and touch nothing else.
  lemma DownloadsKeepInv(st: StoreState, ls: seq<LayerInfo>, remote: Remote, hash: HashFn)
    requires Inv(st, hash)
    ensures Inv(DoAll(st, Downloads(Missing(st, ls), remote, hash).effects), hash)
  {
    hide DoAll, Downloads, Missing, Consistent;
    var es := Downloads(Missing(st, ls), remote, hash).effects;
    var st1 := DoAll(st, es);
    DownloadsAreChecked(st, Missing(st, ls), remote, hash);
    DownloadsOnlyLayers(st, Missing(st, ls), remote, hash);
    Restart.DownloadsWriteMissing(st, ls, remote, hash);
    forall n | n in st.layers && st.layers[n].Some?
      ensures n in st1.layers && st1.layers[n] == st.layers[n]
    {
      var d := hash(st.layers[n].value);
      assert HasLayer(st, d);
      Restart.OtherImagesKept(st, es, d);
    }
    AddingKeepsInv(st, st1, hash);
  }

  lemma NewHeaderDigest(h: BundleHeader, release: ReleaseInfo)
    requires release.layers != []
    ensures CurrentDigest(NewHeader(h, release).layers) == NewDigest(release.layers)
  {
  }

  // Switching an app to a stored layer and recording it in the metadata.
  lemma SwitchedInvIff(st: StoreState, app: Name, h: BundleHeader, release: ReleaseInfo, hash: HashFn)
    requires Inv(st, hash) && app in st.apps && Normal(h) == h
    requires release.layers != [] ==> HasLayer(st, NewDigest(release.layers))
    ensures var st' := DoAll(st, SwitchIfStored(st, app, NewDigest(release.layers)));
            Inv(Do(st', WriteMeta(app, Encode(NewHeader(h, release)))), hash) <==> release.layers != []
  {
    hide Parse, Encode, FindMagic, DoAll, Switch, CurrentDigest;
    var d, h' := NewDigest(release.layers), NewHeader(h, release);
    NothingHasNoMagic();
    ParseEncoded([], h', []);
    assert [] + (Encode(h') + []) == Encode(h');
    if release.layers == [] {
      DoNothing(st);
      assert !Consistent(Do(st, WriteMeta(app, Encode(h'))), app);
    } else {
      ImageHasDigest(st, hash, d);
      SwitchSteps(st, app, d);
      NewHeaderDigest(h, release);
      var st' := Do(Switched(st, app, d), WriteMeta(app, Encode(h')));
      forall a | a in st'.apps
        ensures Consistent(st', a)
      {
        if a != app {
          assert Consistent(st, a);
        }
      }
    }
  }

  lemma ReleaseKeepsInvIff(st: StoreState, app: Name, h: BundleHeader, release: ReleaseInfo, remote: Remote,
                           hash: HashFn)
    requires Inv(st, hash) && app in st.apps && Normal(h) == h
    ensures var plan := ReleasePlan(st, app, h, release, remote, hash);
            Inv(DoAll(st, plan.effects), hash) <==> release.layers != []
  {
    hide Do, DoAll, Downloads, Missing, Encode, SwitchIfStored, Inv, ReleasePlan, HasLayer;
    var ls := release.layers;
    var dl := Downloads(Missing(st, ls), remote, hash);
    var st1 := DoAll(st, dl.effects);
    Restart.PlanShape(st, app, h, release, remote, hash);
    DownloadsKeepInv(st, ls, remote, hash);
    if ls == [] {
      Restart.NoneMissing(st, ls);
      Restart.NoDownloads(remote, hash);
    }
    if dl.res.Ok? {
      DownloadsOnlyLayers(st, Missing(st, ls), remote, hash);
      InvIsContent(st, hash);
      if ls != [] {
        Restart.DownloadedIsStored(st, ls, remote, hash);
        assert ls[|ls| - 1] in ls;
      }
      var switch, meta := SwitchIfStored(st1, app, NewDigest(ls)), WriteMeta(app, Encode(NewHeader(h, release)));
      SwitchedInvIff(st1, app, h, release, hash);
      DoAllConcat(st, dl.effects + switch, [meta]);
      DoAllConcat(st, dl.effects, switch);
      DoOne(DoAll(st1, switch), meta);
    }
  }

  // An update keeps the invariant exactly when it is not asked to apply a release without layers.
  lemma UpdateKeepsInvIff(st: StoreState, app: Name, remote: Remote, hash: HashFn)
    requires Inv(st, hash)
    ensures Inv(Updated(st, app, remote, hash), hash) <==> KeepsLayers(st, Update(app, remote))
  {
    hide DoAll, ReleasePlan, Inv, Parse;
    var wanted := Wanted(AppOrNew(st, app).meta, app, remote);
    if wanted.Err? || wanted.value == None {
      DoNothing(st);
    } else {
      var (h, release) := wanted.value.value;
      ParsedIsNormal(AppOrNew(st, app).meta.value);
      ReleaseKeepsInvIff(st, app, h, release, remote, hash);
    }
  }

  lemma InvIsContent(st: StoreState, hash: HashFn)
    requires Inv(st, hash)
    ensures ContentAddressed(st, hash)
  {
  }

  // What a successful update delivers: every layer of the release stored under the hash of its
  // image, metadata with the release's version and layers, no other app or root changed, and
  // nothing left to do.
  lemma UpdateDelivers(st: StoreState, app: Name, remote: Remote, hash: HashFn)
    requires Inv(st, hash) && UpdatePlan(st, app, remote, hash).res.Ok?
    requires Wanted(AppOrNew(st, app).meta, app, remote).Ok? && Wanted(AppOrNew(st, app).meta, app, remote).value.Some?
    ensures var (h, release) := Wanted(AppOrNew(st, app).meta, app, remote).value.value;
            var st' := Updated(st, app, remote, hash);
            && (forall l | l in release.layers ::
                  HasLayer(st', HexOf(l)) && hash(LayerImage(st', HexOf(l))) == HexOf(l))
            && AppOrNew(st', app).meta == Some(Encode(NewHeader(h, release)))
            && st'.apps - {app} == st.apps - {app} && st'.roots - {app} == st.roots - {app}
            && UpdatePlan(st', app, remote, hash) == Plan([], Ok(()))
    ensures var (h, release) := Wanted(AppOrNew(st, app).meta, app, remote).value.value;
            var st' := Updated(st, app, remote, hash);
            RecordsRelease(AppOrNew(st', app).meta.value, h, release)
            && (release.layers != [] ==> LinkedTo(st', app, HexOf(release.layers[|release.layers| - 1])))
  {
    hide Do, DoAll, Downloads, Missing, Encode, Inv, Parse, ReleasePlan, HasLayer, Wanted, ContentAddressed;
    var (h, release) := Wanted(AppOrNew(st, app).meta, app, remote).value.value;
    var ls, m := release.layers, Encode(NewHeader(h, release));
    var dl := Downloads(Missing(st, ls), remote, hash);
    var st1 := DoAll(st, dl.effects);
    var switch := SwitchIfStored(st1, app, NewDigest(ls));
    var st2 := DoAll(st1, switch);
    var st' := Do(st2, WriteMeta(app, m));
    Restart.PlanShape(st, app, h, release, remote, hash);
    DoAllConcat(st, dl.effects + switch, [WriteMeta(app, m)]);
    DoAllConcat(st, dl.effects, switch);
    DoOne(st2, WriteMeta(app, m));
    InvIsContent(st, hash);
    DownloadsAreChecked(st, Missing(st, ls), remote, hash);
    DownloadsOnlyLayers(st, Missing(st, ls), remote, hash);
    Restart.DownloadedIsStored(st, ls, remote, hash);
    assert switch[..|switch|] == switch;
    Restart.LinksOnly(st1, app, NewDigest(ls), |switch|);
    MetaOnly(st2, app, m);
    forall l | l in ls
      ensures HasLayer(st', HexOf(l)) && hash(LayerImage(st', HexOf(l))) == HexOf(l)
    {
      ImageHasDigest(st1, hash, HexOf(l));
      SameLayersSameImage(st1, st', HexOf(l));
    }
    Restart.UpToDateAfter(AppOrNew(st, app).meta, app, remote);
    ParsedHeader(AppOrNew(st, app).meta, app, remote);
    NewMetaRecords(h, release);
    if ls != [] {
      var last := ls[|ls| - 1];
      assert last in ls;
      ImageHasDigest(st1, hash, HexOf(last));
      SwitchedLinks(st1, app, HexOf(last), m);
    }
  }

  // `current` and the gc root of an app name the digest.
  predicate LinkedTo(st: StoreState, app: Name, digest: Bytes) {
    && app in st.apps && st.apps[app].current == Some(CurrentTarget(digest))
    && app in st.roots && st.roots[app] == RootTarget(digest)
  }

  // Metadata that has the release's version, digests and sizes, no roles, and else the old header.
  predicate RecordsRelease(meta: Bytes, h: BundleHeader, release: ReleaseInfo) {
    && Parse(meta).Ok?
    && var h' := Parse(meta).value;
    && h'.appVersion == release.version && |h'.layers| == |release.layers|
    && (forall i | 0 <= i < |release.layers| ::
          h'.layers[i] == LayerRef(release.layers[i].digest, release.layers[i].size, []))
    && SameFields(h'.(appVersion := h.appVersion, layers := h.layers), h)
  }

  lemma ParsedHeader(meta: Option<Bytes>, app: Name, remote: Remote)
    requires Wanted(meta, app, remote).Ok? && Wanted(meta, app, remote).value.Some?
    ensures var (h, _) := Wanted(meta, app, remote).value.value;
            Normal(h) == h
  {
    hide Parse, Normal;
    ParsedIsNormal(meta.value);
  }

  lemma NewMetaRecords(h: BundleHeader, release: ReleaseInfo)
    requires Normal(h) == h
    ensures RecordsRelease(Encode(NewHeader(h, release)), h, release)
  {
    hide Parse, Encode, FindMagic;
    var h' := NewHeader(h, release);
    NothingHasNoMagic();
    ParseEncoded([], h', []);
    assert [] + (Encode(h') + []) == Encode(h');
  }

  lemma SwitchedLinks(st: StoreState, app: Name, digest: Bytes, meta: Bytes)
    requires digest != [] && HasLayer(st, digest)
    ensures LinkedTo(Do(DoAll(st, SwitchIfStored(st, app, digest)), WriteMeta(app, meta)), app, digest)
  {
    hide DoAll, Switch, CurrentTarget, RootTarget;
    SwitchSteps(st, app, digest);
  }

  lemma SameLayersSameImage(st: StoreState, st': StoreState, d: Bytes)
    requires st.layers == st'.layers && HasLayer(st, d)
    ensures HasLayer(st', d) && LayerImage(st', d) == LayerImage(st, d)
  {
  }

  lemma MetaOnly(st: StoreState, app: Name, data: Bytes)
    ensures var st' := Do(st, WriteMeta(app, data));
            && st'.layers == st.layers && st'.roots == st.roots && st'.apps - {app} == st.apps - {app}
            && AppOrNew(st', app).meta == Some(data)
  {
    assert Do(st, WriteMeta(app, data)).apps - {app} == st.apps - {app};
  }

  // What a successful install delivers, for the app and for the others.
  lemma InstallDelivers(st: StoreState, data: Bytes, hash: HashFn)
    requires ContentAddressed(st, hash) && Installed(st, data, hash).res.Ok?
    ensures ParseBundle(data).Ok?
    ensures var h, st' := ParseBundle(data).value.header, Installed(st, data, hash).st;
            && (forall l | l in h.layers ::
                  HasLayer(st', DigestHex(l)) && hash(LayerImage(st', DigestHex(l))) == DigestHex(l))
            && h.appId in st'.apps && st'.apps[h.appId].meta == Some(Encode(h))
            && Parse(Encode(h)) == Ok(Located(h, 0, |Encode(h)|))
            && st'.apps - {h.appId} == st.apps - {h.appId} && st'.roots - {h.appId} == st.roots - {h.appId}
            && st'.apps[h.appId].currentTmp == AppOrNew(st, h.appId).currentTmp
            && LinkedTo(st', h.appId, if h.layers == [] then [] else DigestHex(h.layers[|h.layers| - 1]))
  {
    hide Parse, StoreLayers, Encode, HasLayer, FindMagic, ContentAddressed, Registered, LinkedTo;
    var b := ParseBundle(data).value;
    var stored, h := StoreLayers(st, b, hash, true, 0).st, b.header;
    var st' := Installed(st, data, hash).st;
    StoreLayersKeeps(st, b, hash, true, 0);
    ParsedIsNormal(data);
    NothingHasNoMagic();
    ParseEncoded([], h, []);
    assert [] + (Encode(h) + []) == Encode(h);
    RegisteredIs(stored, h);
    forall l | l in h.layers
      ensures HasLayer(st', DigestHex(l)) && hash(LayerImage(st', DigestHex(l))) == DigestHex(l)
    {
      var j :| 0 <= j < |h.layers| && h.layers[j] == l;
      ImageHasDigest(stored, hash, DigestHex(l));
      SameLayersSameImage(stored, st', DigestHex(l));
    }
  }

  lemma RegisteredIs(st: StoreState, h: BundleHeader)
    ensures var st' := Registered(st, h);
            && st'.layers == st.layers
            && h.appId in st'.apps && st'.apps[h.appId].meta == Some(Encode(h))
            && st'.apps[h.appId].currentTmp == AppOrNew(st, h.appId).currentTmp
            && LinkedTo(st', h.appId, if h.layers == [] then [] else DigestHex(h.layers[|h.layers| - 1]))
            && st'.apps - {h.appId} == st.apps - {h.appId} && st'.roots - {h.appId} == st.roots - {h.appId}
  {
    hide Encode, CurrentTarget, RootTarget, DigestHex;
    var st' := Registered(st, h);
    assert st'.apps - {h.appId} == st.apps - {h.appId};
    assert st'.roots - {h.appId} == st.roots - {h.appId};
  }

  // ----- When an install or a mount goes through -----

  // Layer `i` has to be stored: it is not in the store, and no earlier layer has its digest.
  predicate ToStore(st: StoreState, ls: seq<LayerRef>, from: nat, i: nat)
    requires i < |ls|
  {
    !HasLayer(st, DigestHex(ls[i])) && forall j | from <= j < i :: DigestHex(ls[j]) != DigestHex(ls[i])
  }

  lemma {:induction false} StoresIff(st: StoreState, b: Bundle, hash: HashFn, i: nat)
    ensures StoreLayers(st, b, hash, true, i).res.Ok? <==>
            forall k | i <= k < |b.header.layers| && ToStore(st, b.header.layers, i, k) :: LayerVerifies(b, hash, k)
    decreases |b.header.layers| - i
  {
    hide Bundle.LayerAt, HasLayer, WithLayer;
    var ls := b.header.layers;
    if i < |ls| {
      var d := DigestHex(ls[i]);
      assert ToStore(st, ls, i, i) <==> !HasLayer(st, d);
      if HasLayer(st, d) || LayerVerifies(b, hash, i) {
        var st' := if HasLayer(st, d) then st else WithLayer(st, b.LayerAt(i).value, d);
        StoresIff(st', b, hash, i + 1);
        forall k | i < k < |ls|
          ensures ToStore(st', ls, i + 1, k) <==> ToStore(st, ls, i, k)
        {
          if !HasLayer(st, d) {
            Restart.StoredUnless(st, b.LayerAt(i).value, d, DigestHex(ls[k]));
          }
        }
      }
    }
  }

  // An install goes through exactly when the file parses and every layer that it has to store is
  // in the file and hashes to its digest; when it does not, no app and no root has changed.
  lemma InstallSucceedsIff(st: StoreState, data: Bytes, hash: HashFn)
    requires ContentAddressed(st, hash)
    ensures Installed(st, data, hash).res.Ok? <==>
            && ParseBundle(data).Ok?
            && var b := ParseBundle(data).value;
               forall i | 0 <= i < |b.header.layers| && ToStore(st, b.header.layers, 0, i) :: LayerVerifies(b, hash, i)
    ensures Installed(st, data, hash).res.Err? ==> OnlyAddsLayers(st, Installed(st, data, hash).st)
  {
    hide Parse, StoreLayers, Encode, ContentAddressed, ToStore, LayerVerifies;
    if ParseBundle(data).Ok? {
      var b := ParseBundle(data).value;
      StoresIff(st, b, hash, 0);
      StoreLayersKeeps(st, b, hash, true, 0);
    }
  }

  lemma {:induction false} StoresUpTo(st: StoreState, b: Bundle, hash: HashFn, i: nat) returns (k: nat)
    requires StoreLayers(st, b, hash, true, i).res.Err?
    ensures i <= k < |b.header.layers| && ToStore(st, b.header.layers, i, k) && !LayerVerifies(b, hash, k)
    ensures forall j | i <= j < k && ToStore(st, b.header.layers, i, j) :: LayerVerifies(b, hash, j)
    ensures StoreLayers(st, b, hash, true, i).res ==
            if b.LayerAt(k).Err? then Err(b.LayerAt(k).error)
            else Err(DigestMismatch(DigestHex(b.header.layers[k]), hash(b.LayerAt(k).value)))
    decreases |b.header.layers| - i
  {
    hide Bundle.LayerAt, HasLayer, WithLayer;
    var ls := b.header.layers;
    var d := DigestHex(ls[i]);
    if HasLayer(st, d) || LayerVerifies(b, hash, i) {
      var st' := if HasLayer(st, d) then st else WithLayer(st, b.LayerAt(i).value, d);
      k := StoresUpTo(st', b, hash, i + 1);
      forall j | i < j < |ls|
        ensures ToStore(st', ls, i + 1, j) <==> ToStore(st, ls, i, j)
      {
        if !HasLayer(st, d) {
          Restart.StoredUnless(st, b.LayerAt(i).value, d, DigestHex(ls[j]));
        }
      }
    } else {
      k := i;
    }
  }

  // When it does not go through, the error is the parser's or that of the first layer to store
  // that does not verify.
  lemma InstallFailsAtFirst(st: StoreState, data: Bytes, hash: HashFn) returns (k: nat)
    requires Installed(st, data, hash).res.Err?
    ensures ParseBundle(data).Err? ==> Installed(st, data, hash) == Outcome(st, Err(ParseBundle(data).error))
    ensures ParseBundle(data).Ok? ==>
              var b := ParseBundle(data).value;
              && k < |b.header.layers| && ToStore(st, b.header.layers, 0, k) && !LayerVerifies(b, hash, k)
              && (forall j | 0 <= j < k && ToStore(st, b.header.layers, 0, j) :: LayerVerifies(b, hash, j))
              && Installed(st, data, hash).res ==
                 if b.LayerAt(k).Err? then Err(b.LayerAt(k).error)
                 else Err(DigestMismatch(DigestHex(b.header.layers[k]), hash(b.LayerAt(k).value)))
  {
    hide Parse, StoreLayers, Encode, ToStore, Bundle.LayerAt;
    k := 0;
    if ParseBundle(data).Ok? {
      k := StoresUpTo(st, ParseBundle(data).value, hash, 0);
    }
  }

  lemma {:induction false} VerifiedStores(st: StoreState, b: Bundle, hash: HashFn, i: nat)
    requires forall j | i <= j < |b.header.layers| :: LayerVerifies(b, hash, j)
    ensures StoreLayers(st, b, hash, false, i).res.Ok?
    decreases |b.header.layers| - i
  {
    hide Bundle.LayerAt, HasLayer, WithLayer;
    if i < |b.header.layers| {
      var d := DigestHex(b.header.layers[i]);
      assert LayerVerifies(b, hash, i);
      var st' := if HasLayer(st, d) then st else WithLayer(st, b.LayerAt(i).value, d);
      VerifiedStores(st', b, hash, i + 1);
    }
  }

  // The storing part of a mount goes through exactly when the file parses and all of its layers
  // verify, with the first failure otherwise; then every layer is stored under the hash of its
  // image, and nothing else changes.
  lemma MountDelivers(st: StoreState, data: Bytes, hash: HashFn)
    requires ContentAddressed(st, hash)
    ensures var m := Mounted(st, data, hash);
            && (m.res.Ok? <==> ParseBundle(data).Ok? && ParseBundle(data).value.VerifyLayers(hash).Ok?)
            && (m.res.Ok? ==> forall l | l in ParseBundle(data).value.header.layers ::
                  HasLayer(m.st, DigestHex(l)) && hash(LayerImage(m.st, DigestHex(l))) == DigestHex(l))
            && (m.res.Err? ==> m.st == st)
            && (ParseBundle(data).Ok? ==> m.res == ParseBundle(data).value.VerifyLayers(hash))
            && OnlyAddsLayers(st, m.st)
  {
    hide Parse, StoreLayers, ContentAddressed, HasLayer, Bundle.VerifyLayers;
    if ParseBundle(data).Ok? && ParseBundle(data).value.VerifyLayers(hash).Ok? {
      var b := ParseBundle(data).value;
      VerifiedIff(b, hash);
      VerifiedStores(st, b, hash, 0);
      StoreLayersKeeps(st, b, hash, false, 0);
      var st' := Mounted(st, data, hash).st;
      assert b.VerifyLayers(hash).value == () && Mounted(st, data, hash).res.value == ();
      forall l | l in b.header.layers
        ensures HasLayer(st', DigestHex(l)) && hash(LayerImage(st', DigestHex(l))) == DigestHex(l)
      {
        var j :| 0 <= j < |b.header.layers| && b.header.layers[j] == l;
        ImageHasDigest(st', hash, DigestHex(l));
      }
    }
  }

  // ----- Runs -----

  datatype Op =
    | Install(data: Bytes)
    | Update(app: Name, remote: Remote)
    | Mount(data: Bytes)
    | Remove(app: Name)
    | Gc(removal: Name -> Removal)

  function Apply(st: StoreState, op: Op, hash: HashFn): StoreState {
    match op
    case Install(data) => Installed(st, data, hash).st
    case Update(app, remote) => Updated(st, app, remote, hash)
    case Mount(data) => Mounted(st, data, hash).st
    case Remove(app) => WithoutApp(st, app)
    case Gc(removal) => CollectedWith(st, removal)
  }

  // A bundle to install, or a release to apply, has at least one layer.
  predicate KeepsLayers(st: StoreState, op: Op) {
    match op
    case Install(data) => ParseBundle(data).Ok? ==> ParseBundle(data).value.header.layers != []
    case Update(app, remote) =>
      (match Wanted(AppOrNew(st, app).meta, app, remote)
       case Ok(Some((_, release))) => release.layers != []
       case _ => true)
    case _ => true
  }

  function Run(ops: seq<Op>, hash: HashFn): StoreState {
    if ops == [] then EMPTY_STORE else Apply(Run(ops[..|ops| - 1], hash), ops[|ops| - 1], hash)
  }

  lemma ApplyKeepsInvIff(st: StoreState, op: Op, hash: HashFn)
    requires Inv(st, hash)
    ensures Inv(Apply(st, op, hash), hash) <==> KeepsLayers(st, op)
  {
    hide Inv, Updated, Installed, Mounted, CollectedWith, WithoutApp, Wanted, ReleasePlan;
    match op
    case Install(data) => InstallKeepsInvIff(st, data, hash);
    case Update(app, remote) => UpdateKeepsInvIff(st, app, remote, hash);
    case Mount(data) => MountKeepsInv(st, data, hash);
    case Remove(app) => RemoveKeepsInv(st, app, hash);
    case Gc(removal) => GcKeepsInv(st, removal, hash);
  }

  lemma {:induction false} PrefixKeepsInvIff(ops: seq<Op>, n: nat, hash: HashFn)
    requires n <= |ops|
    ensures (forall k | 0 <= k <= n :: Inv(Run(ops[..k], hash), hash)) <==>
            (forall k | 0 <= k < n :: KeepsLayers(Run(ops[..k], hash), ops[k]))
  {
    hide Inv, KeepsLayers, Apply, Run;
    if n == 0 {
      EmptyInv(hash);
      assert ops[..0] == [];
    } else {
      PrefixKeepsInvIff(ops, n - 1, hash);
      RunSnoc(ops, n - 1, hash);
      if Inv(Run(ops[..n - 1], hash), hash) {
        ApplyKeepsInvIff(Run(ops[..n - 1], hash), ops[n - 1], hash);
      }
    }
  }

  lemma RunSnoc(ops: seq<Op>, n: nat, hash: HashFn)
    requires n < |ops|
    ensures Run(ops[..n + 1], hash) == Apply(Run(ops[..n], hash), ops[n], hash)
  {
    hide Apply;
    assert ops[..n + 1][..n] == ops[..n];
  }

  // Over every run from an empty store: the invariant holds after each operation exactly when no
  // bundle was installed, and no release applied, that has no layer.
  lemma RunKeepsInvIff(ops: seq<Op>, hash: HashFn)
    ensures (forall k | 0 <= k <= |ops| :: Inv(Run(ops[..k], hash), hash)) <==>
            (forall k | 0 <= k < |ops| :: KeepsLayers(Run(ops[..k], hash), ops[k]))
  {
    hide Inv, KeepsLayers, Run;
    PrefixKeepsInvIff(ops, |ops|, hash);
  }

  // A run that breaks the invariant: installing a bundle that is a header without layers.
  lemma LayerlessInstall(h: BundleHeader, hash: HashFn)
    requires h.layers == []
    ensures !KeepsLayers(Run([], hash), Op.Install(Encode(h)))
    ensures Installed(Run([], hash), Encode(h), hash).res == Ok(())
    ensures !Inv(Run([Op.Install(Encode(h))], hash), hash)
  {
    hide Parse, Encode, FindMagic, Inv, Registered;
    NothingHasNoMagic();
    ParseEncoded([], h, []);
    assert [] + (Encode(h) + []) == Encode(h);
    EmptyInv(hash);
    InstallKeepsInvIff(Run([], hash), Encode(h), hash);
    var op := Op.Install(Encode(h));
    RunSnoc([op], 0, hash);
    assert [op][..1] == [op] && [op][..0] == [];
  }

  lemma EmptyInv(hash: HashFn)
    ensures Inv(Run([], hash), hash)
  {
  }
}
