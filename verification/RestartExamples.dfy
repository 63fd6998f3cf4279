/**
 Updates that running them again does not repair, each with its input (`nxpk/src/commands/update.rs`,
 `nexpack-core/src/store.rs`).
 */
module RestartExamples {
  import opened ByteCodec
  import opened Permission
  import opened Wire
  import opened Header
  import opened BundleFile
  import opened ContentStore
  import opened Update
  import opened Restart

  const APP: Name := [0x61]
  const OLD: Bytes := [0x31]
  const NEW: Bytes := [0x32]
  const URL: Bytes := [0x75]
  const DATA: Bytes := [10]

  // An app with an update URL, and no layer stored.
  function OldHeader(): BundleHeader {
    BundleHeader(1, APP, OLD, [], [], PermissionSet(Allowed(false), [], [], [], []), None, None, Some(URL), None, 0, 0)
  }

  function OldStore(): StoreState {
    StoreState(map[], map[APP := AppDir(Some(Encode(OldHeader())), None, None)], map[])
  }

  // A feed whose latest release has these layers, and the place OLD that alone has the image.
  function Serving(ls: seq<LayerInfo>): Remote {
    Remote(_ => Some(UpdateFeed(APP, NEW, [ReleaseInfo(NEW, ls)])), u => if u == OLD then Some(DATA) else None)
  }

  function Once(hash: HashFn): seq<LayerInfo> { [LayerInfo(hash(DATA), OLD, 1)] }

  // One layer listed twice, the second time where it cannot be had.
  function Twice(hash: HashFn): seq<LayerInfo> { [LayerInfo(hash(DATA), OLD, 1), LayerInfo(hash(DATA), NEW, 1)] }

  lemma HexHasNoPrefix(d: Hex)
    ensures StripPrefix(d) == d && |d| >= 16 && d != []
  {
    var c := d[1];
    assert c in d;
    assert c != DIGEST_PREFIX[1];
  }

  lemma ServingWanted(ls: seq<LayerInfo>)
    ensures Wanted(AppOrNew(OldStore(), APP).meta, APP, Serving(ls))
         == Ok(Some((Located(OldHeader(), 0, |Encode(OldHeader())|), ReleaseInfo(NEW, ls))))
  {
    hide Parse, Encode, FindMagic;
    var h := OldHeader();
    NothingHasNoMagic();
    ParseEncoded([], h, []);
    assert [] + (Encode(h) + []) == Encode(h);
  }

  // ----- A release that is not resumable -----

  // Of two missing layers the first is stored and the second fails.
  lemma SecondFails(st: StoreState, a: LayerInfo, b: LayerInfo, remote: Remote, hash: HashFn)
    requires !HasLayer(st, HexOf(a)) && !HasLayer(st, HexOf(b))
    requires FetchLayer(a, remote, hash).Ok? && FetchLayer(b, remote, hash).Err?
    ensures var d, data := HexOf(a), FetchLayer(a, remote, hash).value;
            Downloads(Missing(st, [a, b]), remote, hash)
            == Plan([MakeLayerDir(d), WriteImage(d, data)], Err(FetchLayer(b, remote, hash).error))
  {
    hide HasLayer, FetchLayer;
    assert [a, b][1..] == [b] && [b][1..] == [];
    assert Missing(st, []) == [];
    assert Missing(st, [b]) == [b] + Missing(st, []);
    assert Missing(st, [a, b]) == [a] + Missing(st, [b]);
    assert [a] + [b] == [a, b];
    assert Downloads([b], remote, hash) == Plan([], Err(FetchLayer(b, remote, hash).error));
  }

  // An update from that feed fails after storing the layer, but run again it goes through.
  lemma TwoSourcesDiverge(hash: HashFn)
    ensures var st, remote := OldStore(), Serving(Twice(hash));
            && UpdateOneImage(st, APP, remote, hash) && !UpdateResumable(st, APP, remote, hash)
            && UpdatePlan(st, APP, remote, hash).res == Err(DownloadFailed)
            && UpdatePlan(Updated(st, APP, remote, hash), APP, remote, hash).res == Ok(())
            && Updated(Updated(st, APP, remote, hash), APP, remote, hash) != Updated(st, APP, remote, hash)
  {
    hide Wanted, Downloads, Missing, Encode, DoAll, OldHeader;
    var st, ls := OldStore(), Twice(hash);
    var remote := Serving(ls);
    var d := hash(DATA);
    HexHasNoPrefix(d);
    ServingWanted(ls);
    var h, release := Located(OldHeader(), 0, |Encode(OldHeader())|), ReleaseInfo(NEW, ls);
    SecondFails(st, ls[0], ls[1], remote, hash);
    PlanShape(st, APP, h, release, remote, hash);
    var es := UpdatePlan(st, APP, remote, hash).effects;
    var st1 := WithLayer(st, DATA, d);
    StoringIsTwoEffects(st, d, DATA, []);
    DoNothing(st1);
    assert es == [MakeLayerDir(d), WriteImage(d, DATA)] + [];
    NowStored(st, DATA, d);
    NoneMissing(st1, ls);
    NoDownloads(remote, hash);
    PlanShape(st1, APP, h, release, remote, hash);
    OtherwiseGoesOn(st, APP, remote, hash);
  }

  // ----- Stops inside a write -----

  lemma OnceDownloads(hash: HashFn)
    ensures var d := hash(DATA);
            && Missing(OldStore(), Once(hash)) == Once(hash)
            && Downloads(Once(hash), Serving(Once(hash)), hash)
               == Plan([MakeLayerDir(d), WriteImage(d, DATA)], Ok(()))
  {
    hide Encode, OldHeader;
    var ls := Once(hash);
    HexHasNoPrefix(hash(DATA));
    assert ls[1..] == [];
    assert Missing(OldStore(), []) == [];
    NoDownloads(Serving(ls), hash);
  }

  // The eight effects of an update to a release with one layer that is not stored yet.
  lemma OncePlan(hash: HashFn) returns (m: Bytes)
    ensures var st, remote, d := OldStore(), Serving(Once(hash)), hash(DATA);
            && UpdatePlan(st, APP, remote, hash)
               == Plan(([MakeLayerDir(d), WriteImage(d, DATA)] + Switch(APP, d)) + [WriteMeta(APP, m)], Ok(()))
            && UpdateOneImage(st, APP, remote, hash) && UpdateResumable(st, APP, remote, hash)
            && m != []
  {
    hide Wanted, Downloads, Missing, Write, DoAll, OldHeader, Switch, FetchLayer;
    var st, ls, d := OldStore(), Once(hash), hash(DATA);
    HexHasNoPrefix(d);
    ServingWanted(ls);
    OnceDownloads(hash);
    var h, release := Located(OldHeader(), 0, |Encode(OldHeader())|), ReleaseInfo(NEW, ls);
    PlanShape(st, APP, h, release, Serving(ls), hash);
    DownloadedIsStored(st, ls, Serving(ls), hash);
    assert ls[0] in ls;
    m := Encode(NewHeader(h, release));
  }

  // Stopped when the image file has been created but holds nothing yet.
  lemma TornImageExample(hash: HashFn)
    ensures var st, remote, stop := OldStore(), Serving(Once(hash)), Stop(1, Some(0));
            && UpdateOneImage(st, APP, remote, hash)
            && LegalStop(UpdatePlan(st, APP, remote, hash).effects, stop)
            && !ReachesSameState(st, APP, remote, hash, stop)
            && var st' := Updated(Stopped(st, UpdatePlan(st, APP, remote, hash).effects, stop), APP, remote, hash);
               HasLayer(st', hash(DATA)) && LayerImage(st', hash(DATA)) == []
  {
    hide UpdatePlan, Updated, UpdateOneImage, UpdateResumable, Switch, OldStore, Stopped;
    var m := OncePlan(hash);
    TornImageStays(OldStore(), APP, Serving(Once(hash)), hash, 1, 0);
  }

  // Stopped when the metadata file has been truncated for the new metadata.
  lemma TornMetaExample(hash: HashFn)
    ensures var st, remote, stop := OldStore(), Serving(Once(hash)), Stop(7, Some(0));
            && UpdateOneImage(st, APP, remote, hash)
            && LegalStop(UpdatePlan(st, APP, remote, hash).effects, stop)
            && !ReachesSameState(st, APP, remote, hash, stop)
            && UpdatePlan(Stopped(st, UpdatePlan(st, APP, remote, hash).effects, stop), APP, remote, hash)
               == Plan([], Err(BadMeta))
  {
    hide UpdatePlan, Updated, UpdateOneImage, UpdateResumable, OldStore, Stopped;
    var m := OncePlan(hash);
    TornMetaStays(OldStore(), APP, Serving(Once(hash)), hash, 7, 0);
  }
}
