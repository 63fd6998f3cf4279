/**
 Stopping an update half-way and running it again (`nxpk/src/commands/update.rs`,
 `nexpack-core/src/store.rs`).

 A run may stop between two effects, or inside a file write, which leaves a prefix of the data.
 No collection runs in between and the servers keep answering the same.
 */
module Restart {
  import opened ByteCodec
  import opened Permission
  import opened Wire
  import opened Header
  import opened BundleFile
  import opened ContentStore
  import opened Update

  // ----- Where a run can stop -----

  // After `done` effects, and with `cut` also inside the next one, after that many bytes of it.
  datatype Stop = Stop(done: nat, cut: Option<nat>)

  predicate IsWrite(e: Effect) { e.WriteImage? || e.WriteMeta? }

  predicate LegalStop(es: seq<Effect>, stop: Stop) {
    && stop.done <= |es|
    && (stop.cut.Some? ==>
          stop.done < |es| && IsWrite(es[stop.done]) && stop.cut.value < |es[stop.done].data|)
  }

  function Torn(st: StoreState, e: Effect, cut: nat): StoreState
    requires IsWrite(e) && cut < |e.data|
  {
    match e
    case WriteImage(d, data) => Do(st, WriteImage(d, data[..cut]))
    case WriteMeta(app, data) => Do(st, WriteMeta(app, data[..cut]))
  }

  function Stopped(st: StoreState, es: seq<Effect>, stop: Stop): StoreState
    requires LegalStop(es, stop)
  {
    var before := DoAll(st, es[..stop.done]);
    if stop.cut == None then before else Torn(before, es[stop.done], stop.cut.value)
  }

  // For no digest of the release do the servers deliver two different images, which only a
  // collision of the hash could make them do.
  predicate OneImage(ls: seq<LayerInfo>, remote: Remote, hash: HashFn) {
    forall a, b | a in ls && b in ls && HexOf(a) == HexOf(b) ::
      FetchLayer(a, remote, hash).Ok? && FetchLayer(b, remote, hash).Ok? ==>
        FetchLayer(a, remote, hash) == FetchLayer(b, remote, hash)
  }

  lemma TwoImagesCollide(ls: seq<LayerInfo>, remote: Remote, hash: HashFn) returns (x: Bytes, y: Bytes)
    requires !OneImage(ls, remote, hash)
    ensures x != y && hash(x) == hash(y)
  {
    var a, b :| a in ls && b in ls && HexOf(a) == HexOf(b)
             && FetchLayer(a, remote, hash).Ok? && FetchLayer(b, remote, hash).Ok?
             && FetchLayer(a, remote, hash) != FetchLayer(b, remote, hash);
    x, y := FetchLayer(a, remote, hash).value, FetchLayer(b, remote, hash).value;
  }

  // Either every download of a release goes through, or what is missing after the downloads
  // have failed starts with a layer that cannot be had.
  predicate Resumable(st: StoreState, ls: seq<LayerInfo>, remote: Remote, hash: HashFn) {
    var dl := Downloads(Missing(st, ls), remote, hash);
    || dl.res.Ok?
    || var again := Missing(DoAll(st, dl.effects), ls);
       again != [] && FetchLayer(again[0], remote, hash).Err?
  }

  predicate UpdateOneImage(st: StoreState, app: Name, remote: Remote, hash: HashFn) {
    match Wanted(AppOrNew(st, app).meta, app, remote)
    case Ok(Some((_, release))) => OneImage(release.layers, remote, hash)
    case _ => true
  }

  predicate UpdateResumable(st: StoreState, app: Name, remote: Remote, hash: HashFn) {
    match Wanted(AppOrNew(st, app).meta, app, remote)
    case Ok(Some((_, release))) => Resumable(st, release.layers, remote, hash)
    case _ => true
  }

  // ----- Images only appear -----

  lemma DoKeepsImages(st: StoreState, e: Effect, d: Bytes)
    requires HasLayer(st, d)
    ensures HasLayer(Do(st, e), d)
  {
  }

  lemma {:induction false} DoAllKeepsImages(st: StoreState, es: seq<Effect>, d: Bytes)
    requires HasLayer(st, d)
    ensures HasLayer(DoAll(st, es), d)
    decreases es
  {
    hide Do, HasLayer;
    if es != [] {
      DoKeepsImages(st, es[0], d);
      DoAllKeepsImages(Do(st, es[0]), es[1..], d);
    }
  }

  // ----- Downloading with a fresh look at the store before each layer -----

  datatype Progress = Progress(st: StoreState, res: Done)

  function StoreStepwise(st: StoreState, ls: seq<LayerInfo>, remote: Remote, hash: HashFn): Progress
    decreases ls
  {
    if ls == [] then Progress(st, Ok(()))
    else if HasLayer(st, HexOf(ls[0])) then StoreStepwise(st, ls[1..], remote, hash)
    else
      match FetchLayer(ls[0], remote, hash)
      case Err(e) => Progress(st, Err(e))
      case Ok(data) => StoreStepwise(WithLayer(st, data, HexOf(ls[0])), ls[1..], remote, hash)
  }

  // `st` has gained on `st0` no image other than the one the servers deliver for its digest.
  predicate Gained(st0: StoreState, st: StoreState, ls: seq<LayerInfo>, remote: Remote, hash: HashFn) {
    forall l | l in ls ::
      if HasLayer(st0, HexOf(l)) then HasLayer(st, HexOf(l))
      else HasLayer(st, HexOf(l)) && FetchLayer(l, remote, hash).Ok? ==>
        FetchLayer(l, remote, hash).value == LayerImage(st, HexOf(l))
  }

  lemma GainOne(st0: StoreState, st: StoreState, ls: seq<LayerInfo>, remote: Remote, hash: HashFn)
    requires ls != [] && OneImage(ls, remote, hash) && Gained(st0, st, ls, remote, hash)
    requires FetchLayer(ls[0], remote, hash).Ok? && !HasLayer(st0, HexOf(ls[0]))
    ensures var st' := WithLayer(st, FetchLayer(ls[0], remote, hash).value, HexOf(ls[0]));
            && Gained(st0, st', ls[1..], remote, hash)
            && (HasLayer(st, HexOf(ls[0])) ==> st' == st)
  {
    hide FetchLayer;
    var d, data := HexOf(ls[0]), FetchLayer(ls[0], remote, hash).value;
    assert ls[0] in ls;
    forall l | l in ls[1..]
      ensures l in ls && (DirName(HexOf(l)) == DirName(d) <==> HexOf(l) == d)
    {
      DirNameInjective(HexOf(l), d);
    }
    if HasLayer(st, d) {
      assert st.layers[DirName(d) := Some(data)] == st.layers;
    }
  }

  lemma TailOneImage(ls: seq<LayerInfo>, remote: Remote, hash: HashFn)
    requires ls != [] && OneImage(ls, remote, hash)
    ensures OneImage(ls[1..], remote, hash)
  {
    hide FetchLayer, HexOf;
  }

  lemma TailGained(st0: StoreState, st: StoreState, ls: seq<LayerInfo>, remote: Remote, hash: HashFn)
    requires ls != [] && Gained(st0, st, ls, remote, hash)
    ensures Gained(st0, st, ls[1..], remote, hash)
  {
    hide HasLayer, FetchLayer;
    assert forall l :: l in ls[1..] ==> l in ls;
  }

  lemma GainedNothing(st: StoreState, ls: seq<LayerInfo>, remote: Remote, hash: HashFn)
    ensures Gained(st, st, ls, remote, hash)
  {
  }

  // Looking before each layer ends the same from anywhere in the downloads that were listed up front.
  lemma {:induction false} StepwiseResumes(st0: StoreState, st: StoreState, ls: seq<LayerInfo>,
                                           remote: Remote, hash: HashFn, k: nat)
    requires OneImage(ls, remote, hash) && Gained(st0, st, ls, remote, hash)
    requires k <= |Downloads(Missing(st0, ls), remote, hash).effects|
    ensures var es := Downloads(Missing(st0, ls), remote, hash).effects;
            StoreStepwise(DoAll(st, es[..k]), ls, remote, hash) == StoreStepwise(st, ls, remote, hash)
    decreases ls
  {
    hide Do, FetchLayer, HasLayer, OneImage;
    var es := Downloads(Missing(st0, ls), remote, hash).effects;
    if k == 0 {
      DoNothing(st);
      assert es[..0] == [];
    } else {
      assert ls[0] in ls;
      TailOneImage(ls, remote, hash);
      var d := HexOf(ls[0]);
      if HasLayer(st0, d) {
        TailGained(st0, st, ls, remote, hash);
        StepwiseResumes(st0, st, ls[1..], remote, hash, k);
        assert HasLayer(st, d);
        DoAllKeepsImages(st, es[..k], d);
      } else {
        var rest := Missing(st0, ls[1..]);
        assert Missing(st0, ls)[0] == ls[0] && Missing(st0, ls)[1..] == rest;
        var data := FetchLayer(ls[0], remote, hash).value;
        GainOne(st0, st, ls, remote, hash);
        if k == 1 {
          assert es[..1] == [MakeLayerDir(d)];
          DoOne(st, MakeLayerDir(d));
          EmptyDirIsNoLayer(st, d, data);
        } else {
          var es' := Downloads(rest, remote, hash).effects;
          assert es[..k] == [MakeLayerDir(d), WriteImage(d, data)] + es'[..k - 2];
          StoringIsTwoEffects(st, d, data, es'[..k - 2]);
          var st' := WithLayer(st, data, d);
          StepwiseResumes(st0, st', ls[1..], remote, hash, k - 2);
          NowStored(st, data, d);
          DoAllKeepsImages(st', es'[..k - 2], d);
        }
      }
    }
  }

  lemma EmptyDirIsNoLayer(st: StoreState, d: Bytes, data: Bytes)
    ensures HasLayer(Do(st, MakeLayerDir(d)), d) == HasLayer(st, d)
    ensures HasLayer(st, d) ==> Do(st, MakeLayerDir(d)) == st
    ensures WithLayer(Do(st, MakeLayerDir(d)), data, d) == WithLayer(st, data, d)
  {
    assert !HasLayer(st, d) ==>
        Do(st, MakeLayerDir(d)).layers[DirName(d) := Some(data)] == st.layers[DirName(d) := Some(data)];
  }

  lemma NowStored(st: StoreState, data: Bytes, d: Bytes)
    ensures HasLayer(WithLayer(st, data, d), d) && LayerImage(WithLayer(st, data, d), d) == data
  {
  }

  // Looking before each layer does something exactly when the first missing layer can be had.
  lemma {:induction false} StepwiseMoves(st: StoreState, ls: seq<LayerInfo>, remote: Remote, hash: HashFn)
    ensures var ms, p := Missing(st, ls), StoreStepwise(st, ls, remote, hash);
            if ms == [] then p == Progress(st, Ok(()))
            else
              && ms[0] in ls && !HasLayer(st, HexOf(ms[0]))
              && match FetchLayer(ms[0], remote, hash)
                 case Err(e) => p == Progress(st, Err(e))
                 case Ok(_) => HasLayer(p.st, HexOf(ms[0]))
    decreases ls
  {
    hide FetchLayer, HasLayer;
    if ls != [] {
      if HasLayer(st, HexOf(ls[0])) {
        StepwiseMoves(st, ls[1..], remote, hash);
      } else if FetchLayer(ls[0], remote, hash).Ok? {
        var d, data := HexOf(ls[0]), FetchLayer(ls[0], remote, hash).value;
        NowStored(st, data, d);
        StepwiseKeepsImages(WithLayer(st, data, d), ls[1..], remote, hash, d);
      }
    }
  }

  lemma {:induction false} StepwiseKeepsImages(st: StoreState, ls: seq<LayerInfo>, remote: Remote, hash: HashFn,
                                               d: Bytes)
    requires HasLayer(st, d)
    ensures HasLayer(StoreStepwise(st, ls, remote, hash).st, d)
    decreases ls
  {
    hide FetchLayer;
    if ls != [] {
      var d' := HexOf(ls[0]);
      if HasLayer(st, d') {
        StepwiseKeepsImages(st, ls[1..], remote, hash, d);
      } else if FetchLayer(ls[0], remote, hash).Ok? {
        StepwiseKeepsImages(WithLayer(st, FetchLayer(ls[0], remote, hash).value, d'), ls[1..], remote, hash, d);
      }
    }
  }

  // ----- What the downloads store -----

  lemma {:induction false} DownloadsStore(st: StoreState, ls: seq<LayerInfo>, remote: Remote, hash: HashFn)
    requires Downloads(ls, remote, hash).res.Ok?
    ensures forall l | l in ls :: HasLayer(DoAll(st, Downloads(ls, remote, hash).effects), HexOf(l))
    decreases ls
  {
    hide Do, FetchLayer, HasLayer;
    if ls != [] {
      var d, data := HexOf(ls[0]), FetchLayer(ls[0], remote, hash).value;
      var rest := Downloads(ls[1..], remote, hash).effects;
      StoringIsTwoEffects(st, d, data, rest);
      NowStored(st, data, d);
      DoAllKeepsImages(WithLayer(st, data, d), rest, d);
      DownloadsStore(WithLayer(st, data, d), ls[1..], remote, hash);
      assert forall l :: l in ls ==> l == ls[0] || l in ls[1..];
    }
  }

  lemma {:induction false} MissingOrStored(st: StoreState, ls: seq<LayerInfo>)
    ensures forall l | l in ls :: HasLayer(st, HexOf(l)) || l in Missing(st, ls)
  {
    hide HasLayer;
    if ls != [] {
      MissingOrStored(st, ls[1..]);
      assert forall l :: l in ls ==> l == ls[0] || l in ls[1..];
    }
  }

  lemma {:induction false} NoneMissing(st: StoreState, ls: seq<LayerInfo>)
    requires forall l | l in ls :: HasLayer(st, HexOf(l))
    ensures Missing(st, ls) == []
  {
    hide HasLayer;
    if ls != [] {
      assert ls[0] in ls;
      NoneMissing(st, ls[1..]);
    }
  }

  // All the layers of a release are stored once its downloads have gone through.
  lemma DownloadedIsStored(st: StoreState, ls: seq<LayerInfo>, remote: Remote, hash: HashFn)
    requires Downloads(Missing(st, ls), remote, hash).res.Ok?
    ensures var st1 := DoAll(st, Downloads(Missing(st, ls), remote, hash).effects);
            Missing(st1, ls) == [] && forall l | l in ls :: HasLayer(st1, HexOf(l))
  {
    hide DoAll, Downloads, HasLayer, Missing;
    var es := Downloads(Missing(st, ls), remote, hash).effects;
    MissingOrStored(st, ls);
    DownloadsStore(st, Missing(st, ls), remote, hash);
    forall l | l in ls
      ensures HasLayer(DoAll(st, es), HexOf(l))
    {
      if HasLayer(st, HexOf(l)) {
        DoAllKeepsImages(st, es, HexOf(l));
      }
    }
    NoneMissing(DoAll(st, es), ls);
  }

  // Downloading from a state that has more of the release fails only if downloading from the
  // one with less does, and stores whatever that would have stored.
  lemma {:induction false} MoreStoredStoresMore(st0: StoreState, st0': StoreState, st: StoreState, st': StoreState,
                                                ls: seq<LayerInfo>, remote: Remote, hash: HashFn, d: Bytes)
    requires forall l | l in ls :: HasLayer(st0, HexOf(l)) ==> HasLayer(st0', HexOf(l))
    requires HasLayer(st, d) || HasLayer(st0', d) ==> HasLayer(st', d)
    ensures var dl, dl' := Downloads(Missing(st0, ls), remote, hash), Downloads(Missing(st0', ls), remote, hash);
            && (dl.res.Ok? ==> dl'.res.Ok?)
            && (HasLayer(DoAll(st, dl.effects), d) ==> HasLayer(DoAll(st', dl'.effects), d))
    decreases ls
  {
    hide Do, FetchLayer, HasLayer, WithLayer;
    if ls != [] {
      assert ls[0] in ls;
      var d0 := HexOf(ls[0]);
      var ms, ms' := Missing(st0, ls[1..]), Missing(st0', ls[1..]);
      if HasLayer(st0, d0) {
        MoreStoredStoresMore(st0, st0', st, st', ls[1..], remote, hash, d);
      } else if FetchLayer(ls[0], remote, hash).Ok? {
        var data := FetchLayer(ls[0], remote, hash).value;
        assert ([ls[0]] + ms)[1..] == ms && ([ls[0]] + ms')[1..] == ms';
        StoringIsTwoEffects(st, d0, data, Downloads(ms, remote, hash).effects);
        StoringIsTwoEffects(st', d0, data, Downloads(ms', remote, hash).effects);
        StoredUnless(st, data, d0, d);
        StoredUnless(st', data, d0, d);
        MoreStoredStoresMore(st0, st0', WithLayer(st, data, d0),
                             if HasLayer(st0', d0) then st' else WithLayer(st', data, d0), ls[1..], remote, hash, d);
      } else if HasLayer(st, d) {
        DoAllKeepsImages(st', Downloads(Missing(st0', ls), remote, hash).effects, d);
      }
    }
  }

  lemma StoredUnless(st: StoreState, data: Bytes, d0: Bytes, d: Bytes)
    ensures HasLayer(WithLayer(st, data, d0), d) <==> HasLayer(st, d) || d == d0
  {
    DirNameInjective(d, d0);
  }

  // ----- Downloading again -----

  // In a resumable release looking before each layer comes to the same as listing them up front.
  lemma UpFrontIsStepwiseIff(st: StoreState, ls: seq<LayerInfo>, remote: Remote, hash: HashFn)
    requires OneImage(ls, remote, hash)
    ensures var dl, p := Downloads(Missing(st, ls), remote, hash), StoreStepwise(st, ls, remote, hash);
            Resumable(st, ls, remote, hash) <==> p.st == DoAll(st, dl.effects) && (p.res.Ok? <==> dl.res.Ok?)
  {
    hide Do, DoAll, Downloads, Missing, OneImage, Gained, StoreStepwise, FetchLayer, HasLayer;
    var es := Downloads(Missing(st, ls), remote, hash).effects;
    GainedNothing(st, ls, remote, hash);
    StepwiseResumes(st, st, ls, remote, hash, |es|);
    assert es[..|es|] == es;
    StepwiseMoves(DoAll(st, es), ls, remote, hash);
    if Downloads(Missing(st, ls), remote, hash).res.Ok? {
      DownloadedIsStored(st, ls, remote, hash);
    }
  }

  // Stopping the downloads of a resumable release after any effect and starting over.
  lemma DownloadsResume(st: StoreState, ls: seq<LayerInfo>, remote: Remote, hash: HashFn, k: nat)
    requires OneImage(ls, remote, hash) && Resumable(st, ls, remote, hash)
    requires k <= |Downloads(Missing(st, ls), remote, hash).effects|
    ensures var dl := Downloads(Missing(st, ls), remote, hash);
            var st' := DoAll(st, dl.effects[..k]);
            var dl' := Downloads(Missing(st', ls), remote, hash);
            && DoAll(st', dl'.effects) == DoAll(st, dl.effects)
            && (dl'.res.Ok? <==> dl.res.Ok?)
            && Resumable(st', ls, remote, hash)
  {
    hide Do, DoAll, Downloads, Missing, OneImage, Gained, StoreStepwise, FetchLayer, HasLayer;
    var dl := Downloads(Missing(st, ls), remote, hash);
    var st1, st' := DoAll(st, dl.effects), DoAll(st, dl.effects[..k]);
    var dl' := Downloads(Missing(st', ls), remote, hash);
    var st1' := DoAll(st', dl'.effects);
    GainedNothing(st, ls, remote, hash);
    GainedNothing(st', ls, remote, hash);
    StepwiseResumes(st, st, ls, remote, hash, k);
    UpFrontIsStepwiseIff(st, ls, remote, hash);
    StepwiseResumes(st', st', ls, remote, hash, |dl'.effects|);
    assert dl'.effects[..|dl'.effects|] == dl'.effects;
    assert StoreStepwise(st1', ls, remote, hash) == StoreStepwise(st, ls, remote, hash);
    StepwiseMoves(st1', ls, remote, hash);
    if dl'.res.Ok? {
      DownloadedIsStored(st', ls, remote, hash);
    } else {
      var ms := Missing(st1', ls);
      var d := if ms == [] then [] else HexOf(ms[0]);
      KeptByPrefix(st, dl.effects[..k], ls);
      if HasLayer(st', d) {
        DoAllKeepsImages(st', dl'.effects, d);
      }
      if HasLayer(st, d) {
        DoAllKeepsImages(st, dl.effects[..k], d);
      }
      MoreStoredStoresMore(st, st', st, st', ls, remote, hash, d);
    }
  }

  // A release is resumable when layers with one digest can all be had or none of them, as when
  // every digest is listed at one place.
  lemma SameAnswersResumable(st: StoreState, ls: seq<LayerInfo>, remote: Remote, hash: HashFn)
    requires SameAnswers(ls, remote, hash)
    ensures Resumable(st, ls, remote, hash)
  {
    hide DoAll, Downloads, Missing, FetchLayer, HasLayer, SameAnswers;
    if Downloads(Missing(st, ls), remote, hash).res.Err? {
      StuckAtOnce(st, st, ls, remote, hash);
    }
  }

  predicate SameAnswers(ls: seq<LayerInfo>, remote: Remote, hash: HashFn) {
    forall a, b | a in ls && b in ls && HexOf(a) == HexOf(b) ::
      FetchLayer(a, remote, hash).Ok? <==> FetchLayer(b, remote, hash).Ok?
  }

  lemma {:induction false} StuckAtOnce(st0: StoreState, st: StoreState, ls: seq<LayerInfo>, remote: Remote,
                                       hash: HashFn)
    requires SameAnswers(ls, remote, hash) && Downloads(Missing(st0, ls), remote, hash).res.Err?
    requires forall l | l in ls :: if HasLayer(st0, HexOf(l)) then HasLayer(st, HexOf(l))
                                   else HasLayer(st, HexOf(l)) ==> FetchLayer(l, remote, hash).Ok?
    ensures var again := Missing(DoAll(st, Downloads(Missing(st0, ls), remote, hash).effects), ls);
            again != [] && FetchLayer(again[0], remote, hash).Err?
    decreases ls
  {
    hide Do, FetchLayer, HasLayer, WithLayer;
    assert ls != [] && ls[0] in ls;
    var d := HexOf(ls[0]);
    var es, rest := Downloads(Missing(st0, ls), remote, hash).effects, Missing(st0, ls[1..]);
    assert SameAnswers(ls[1..], remote, hash) && forall l :: l in ls[1..] ==> l in ls;
    if HasLayer(st0, d) {
      StuckAtOnce(st0, st, ls[1..], remote, hash);
      DoAllKeepsImages(st, es, d);
    } else if FetchLayer(ls[0], remote, hash).Ok? {
      assert ([ls[0]] + rest)[1..] == rest;
      var data := FetchLayer(ls[0], remote, hash).value;
      var es' := Downloads(rest, remote, hash).effects;
      StoringIsTwoEffects(st, d, data, es');
      NowStored(st, data, d);
      DoAllKeepsImages(WithLayer(st, data, d), es', d);
      forall l | l in ls[1..]
        ensures HasLayer(WithLayer(st, data, d), HexOf(l)) <==> HasLayer(st, HexOf(l)) || HexOf(l) == d
      {
        StoredUnless(st, data, d, HexOf(l));
      }
      StuckAtOnce(st0, WithLayer(st, data, d), ls[1..], remote, hash);
    }
  }

  lemma KeptByPrefix(st: StoreState, es: seq<Effect>, ls: seq<LayerInfo>)
    ensures forall l | l in ls :: HasLayer(st, HexOf(l)) ==> HasLayer(DoAll(st, es), HexOf(l))
  {
    hide DoAll, HasLayer;
    forall l | l in ls && HasLayer(st, HexOf(l)) {
      DoAllKeepsImages(st, es, HexOf(l));
    }
  }

  // ----- After the downloads -----

  // Having the same images, two states miss the same layers and switch alike.
  lemma {:induction false} SameMissing(st: StoreState, st': StoreState, ls: seq<LayerInfo>)
    requires st.layers == st'.layers
    ensures Missing(st, ls) == Missing(st', ls)
  {
    if ls != [] {
      SameMissing(st, st', ls[1..]);
    }
  }

  predicate IsLinkEffect(e: Effect, app: Name) {
    !e.MakeLayerDir? && !IsWrite(e) && e.app == app
  }

  // Two states that differ at most in one app's links.
  predicate DifferInLinks(st: StoreState, st': StoreState, app: Name) {
    && st'.layers == st.layers
    && st'.apps - {app} == st.apps - {app} && AppOrNew(st', app).meta == AppOrNew(st, app).meta
    && st'.roots - {app} == st.roots - {app}
  }

  lemma LinkEffect(st: StoreState, e: Effect, app: Name)
    requires IsLinkEffect(e, app)
    ensures DifferInLinks(st, Do(st, e), app)
  {
    var st' := Do(st, e);
    assert st'.apps - {app} == st.apps - {app};
    assert st'.roots - {app} == st.roots - {app};
  }

  lemma {:induction false} LinkEffects(st: StoreState, es: seq<Effect>, app: Name)
    requires forall e :: e in es ==> IsLinkEffect(e, app)
    ensures DifferInLinks(st, DoAll(st, es), app)
    decreases es
  {
    hide Do;
    if es != [] {
      assert es[0] in es;
      LinkEffect(st, es[0], app);
      LinkEffects(Do(st, es[0]), es[1..], app);
    }
  }

  lemma SwitchForgetsLinks(st: StoreState, st': StoreState, app: Name, digest: Bytes)
    requires DifferInLinks(st, st', app)
    ensures DoAll(st', Switch(app, digest)) == DoAll(st, Switch(app, digest))
  {
    hide DoAll, Switch;
    SwitchSteps(st, app, digest);
    SwitchSteps(st', app, digest);
    var a, a' := Switched(st, app, digest).apps, Switched(st', app, digest).apps;
    assert a == (st.apps - {app})[app := a[app]];
    assert a' == (st'.apps - {app})[app := a'[app]];
    var r, r' := Switched(st, app, digest).roots, Switched(st', app, digest).roots;
    assert r == (st.roots - {app})[app := r[app]];
    assert r' == (st'.roots - {app})[app := r'[app]];
  }

  // ----- Resuming a release -----

  lemma SamePlanForSameImages(st: StoreState, st': StoreState, app: Name, ls: seq<LayerInfo>)
    requires st.layers == st'.layers
    ensures Missing(st, ls) == Missing(st', ls)
    ensures SwitchIfStored(st, app, NewDigest(ls)) == SwitchIfStored(st', app, NewDigest(ls))
  {
    SameMissing(st, st', ls);
  }

  // A stop between two effects of the downloads.
  lemma ResumesInDownloads(st: StoreState, app: Name, h: BundleHeader, release: ReleaseInfo, remote: Remote,
                           hash: HashFn, k: nat)
    requires OneImage(release.layers, remote, hash) && Resumable(st, release.layers, remote, hash)
    requires k <= |Downloads(Missing(st, release.layers), remote, hash).effects|
    ensures var st' := DoAll(st, Downloads(Missing(st, release.layers), remote, hash).effects[..k]);
            SameOutcome(st, st', app, h, release, remote, hash) && Resumable(st', release.layers, remote, hash)
  {
    hide Do, DoAll, Downloads, Missing, Encode, Switch, OneImage, Resumable;
    var ls := release.layers;
    var dl := Downloads(Missing(st, ls), remote, hash);
    var st' := DoAll(st, dl.effects[..k]);
    var dl' := Downloads(Missing(st', ls), remote, hash);
    DownloadsResume(st, ls, remote, hash, k);
    if dl.res.Ok? {
      var tail := SwitchIfStored(DoAll(st, dl.effects), app, NewDigest(ls))
               + [WriteMeta(app, Encode(NewHeader(h, release)))];
      DoAllConcat(st, dl.effects, tail);
      DoAllConcat(st', dl'.effects, tail);
    }
  }

  // From both states applying the release ends in one state, and from both it goes through or from neither.
  predicate SameOutcome(st: StoreState, st': StoreState, app: Name, h: BundleHeader, release: ReleaseInfo,
                        remote: Remote, hash: HashFn)
  {
    var plan, plan' := ReleasePlan(st, app, h, release, remote, hash), ReleasePlan(st', app, h, release, remote, hash);
    DoAll(st', plan'.effects) == DoAll(st, plan.effects) && (plan'.res.Ok? <==> plan.res.Ok?)
  }

  lemma LinksOnly(st: StoreState, app: Name, digest: Bytes, j: nat)
    requires j <= |SwitchIfStored(st, app, digest)|
    ensures DifferInLinks(st, DoAll(st, SwitchIfStored(st, app, digest)[..j]), app)
  {
    hide DoAll;
    LinkEffects(st, SwitchIfStored(st, app, digest)[..j], app);
  }

  // A stop in the switch: the downloads are found to be done and the switch starts over.
  lemma ResumesInSwitch(st: StoreState, app: Name, h: BundleHeader, release: ReleaseInfo, remote: Remote,
                        hash: HashFn, j: nat)
    requires Downloads(Missing(st, release.layers), remote, hash).res.Ok?
    requires var st1 := DoAll(st, Downloads(Missing(st, release.layers), remote, hash).effects);
             j <= |SwitchIfStored(st1, app, NewDigest(release.layers))|
    ensures var st1 := DoAll(st, Downloads(Missing(st, release.layers), remote, hash).effects);
            var st' := DoAll(st1, SwitchIfStored(st1, app, NewDigest(release.layers))[..j]);
            SameOutcome(st, st', app, h, release, remote, hash) && Resumable(st', release.layers, remote, hash)
  {
    hide Do, DoAll, Missing, Encode, Switch, HasLayer;
    var ls := release.layers;
    var dl := Downloads(Missing(st, ls), remote, hash);
    var st1 := DoAll(st, dl.effects);
    var switch := SwitchIfStored(st1, app, NewDigest(ls));
    var st' := DoAll(st1, switch[..j]);
    var meta := [WriteMeta(app, Encode(NewHeader(h, release)))];
    DownloadedIsStored(st, ls, remote, hash);
    LinksOnly(st1, app, NewDigest(ls), j);
    SamePlanForSameImages(st1, st', app, ls);
    DoNothing(st');
    assert [] + (switch + meta) == switch + meta;
    assert ReleasePlan(st', app, h, release, remote, hash).effects == switch + meta;
    DoAllConcat(st, dl.effects, switch + meta);
    DoAllConcat(st1, switch, meta);
    DoAllConcat(st', switch, meta);
    if switch != [] {
      SwitchForgetsLinks(st1, st', app, NewDigest(ls));
    }
  }

  // ----- What a run leaves of the metadata -----

  lemma {:induction false} MetaUntouched(st: StoreState, es: seq<Effect>, app: Name)
    requires forall e :: e in es ==> !e.WriteMeta?
    ensures AppOrNew(DoAll(st, es), app).meta == AppOrNew(st, app).meta
    decreases es
  {
    if es != [] {
      assert es[0] in es;
      MetaUntouched(Do(st, es[0]), es[1..], app);
    }
  }

  lemma {:induction false} DownloadsWriteNoMeta(ls: seq<LayerInfo>, remote: Remote, hash: HashFn)
    ensures forall e :: e in Downloads(ls, remote, hash).effects ==> e.MakeLayerDir? || e.WriteImage?
  {
    hide FetchLayer;
    if ls != [] {
      DownloadsWriteNoMeta(ls[1..], remote, hash);
    }
  }

  // The parts of a release's plan; only its last effect writes the metadata.
  lemma PlanShape(st: StoreState, app: Name, h: BundleHeader, release: ReleaseInfo, remote: Remote, hash: HashFn)
    ensures var plan := ReleasePlan(st, app, h, release, remote, hash);
            var dl := Downloads(Missing(st, release.layers), remote, hash);
            var switch := SwitchIfStored(DoAll(st, dl.effects), app, NewDigest(release.layers));
            && plan.res == dl.res
            && (dl.res.Err? ==> plan.effects == dl.effects)
            && (dl.res.Ok? ==>
                  && plan.effects == (dl.effects + switch) + [WriteMeta(app, Encode(NewHeader(h, release)))]
                  && |plan.effects| == |dl.effects| + |switch| + 1)
    ensures var plan := ReleasePlan(st, app, h, release, remote, hash);
            forall i | 0 <= i < |plan.effects| ::
              plan.effects[i].WriteMeta? <==> plan.res.Ok? && i == |plan.effects| - 1
  {
    hide Do, DoAll, Missing, Downloads, Encode, HasLayer;
    var plan := ReleasePlan(st, app, h, release, remote, hash);
    var dl := Downloads(Missing(st, release.layers), remote, hash);
    DownloadsWriteNoMeta(Missing(st, release.layers), remote, hash);
    if dl.res.Ok? {
      var switch := SwitchIfStored(DoAll(st, dl.effects), app, NewDigest(release.layers));
      var m := WriteMeta(app, Encode(NewHeader(h, release)));
      assert plan.effects == (dl.effects + switch) + [m];
      assert dl.res.value == () && dl.res == Ok(());
      forall i | 0 <= i < |plan.effects|
        ensures plan.effects[i].WriteMeta? <==> i == |plan.effects| - 1
      {
        if i < |dl.effects| {
          assert plan.effects[i] == dl.effects[i] && dl.effects[i] in dl.effects;
        } else if i < |plan.effects| - 1 {
          assert plan.effects[i] == switch[i - |dl.effects|];
        }
      }
    } else {
      forall i | 0 <= i < |plan.effects|
        ensures !plan.effects[i].WriteMeta?
      {
        assert dl.effects[i] in dl.effects;
      }
    }
  }

  // Once the new metadata is written the app is up to date.
  lemma UpToDateAfter(meta: Option<Bytes>, app: Name, remote: Remote)
    requires Wanted(meta, app, remote).Ok? && Wanted(meta, app, remote).value.Some?
    ensures var (h, release) := Wanted(meta, app, remote).value.value;
            Wanted(Some(Encode(NewHeader(h, release))), app, remote) == Ok(None)
  {
    hide Encode, Parse, FindMagic;
    var (h, release) := Wanted(meta, app, remote).value.value;
    var h' := NewHeader(h, release);
    ParsedIsNormal(meta.value);
    NothingHasNoMagic();
    ParseEncoded([], h', []);
    assert [] + (Encode(h') + []) == Encode(h');
  }

  // ----- Stops between effects -----

  // Stopping a resumable update after any effect and running it again: the same final state, and
  // success or failure as without the stop.  The update can then be stopped and resumed again.
  lemma BoundaryResumes(st: StoreState, app: Name, remote: Remote, hash: HashFn, k: nat)
    requires UpdateOneImage(st, app, remote, hash) && UpdateResumable(st, app, remote, hash)
    requires k <= |UpdatePlan(st, app, remote, hash).effects|
    ensures var st' := DoAll(st, UpdatePlan(st, app, remote, hash).effects[..k]);
            && Updated(st', app, remote, hash) == Updated(st, app, remote, hash)
            && (UpdatePlan(st', app, remote, hash).res.Ok? <==> UpdatePlan(st, app, remote, hash).res.Ok?)
            && UpdateOneImage(st', app, remote, hash) && UpdateResumable(st', app, remote, hash)
  {
    hide Do, DoAll, Missing, Downloads, Encode, Wanted, OneImage, Resumable, ReleasePlan, SwitchIfStored;
    var wanted := Wanted(AppOrNew(st, app).meta, app, remote);
    var plan := UpdatePlan(st, app, remote, hash);
    var es := plan.effects;
    var st' := DoAll(st, es[..k]);
    if wanted.Err? || wanted.value == None {
      DoNothing(st);
      assert es[..k] == [];
    } else {
      var (h, release) := wanted.value.value;
      PlanShape(st, app, h, release, remote, hash);
      if k < |es| || plan.res.Err? {
        BeforeMeta(st, es, app, k);
        ReleaseResumes(st, app, h, release, remote, hash, k);
      } else {
        assert es[..k] == es;
        NothingLeftToDo(st, app, remote, hash);
        DoNothing(st');
      }
    }
  }

  lemma BeforeMeta(st: StoreState, es: seq<Effect>, app: Name, k: nat)
    requires k <= |es| && forall i | 0 <= i < k :: !es[i].WriteMeta?
    ensures AppOrNew(DoAll(st, es[..k]), app).meta == AppOrNew(st, app).meta
  {
    forall e | e in es[..k]
      ensures !e.WriteMeta?
    {
      var i :| 0 <= i < k && es[i] == e;
    }
    MetaUntouched(st, es[..k], app);
  }

  // After a release has been applied the next update has nothing to do.
  lemma NothingLeftToDo(st: StoreState, app: Name, remote: Remote, hash: HashFn)
    requires UpdatePlan(st, app, remote, hash).res.Ok?
    requires Wanted(AppOrNew(st, app).meta, app, remote).Ok? && Wanted(AppOrNew(st, app).meta, app, remote).value.Some?
    ensures Wanted(AppOrNew(Updated(st, app, remote, hash), app).meta, app, remote) == Ok(None)
  {
    hide Do, DoAll, Missing, Downloads, Encode, Wanted, ReleasePlan, SwitchIfStored;
    var (h, release) := Wanted(AppOrNew(st, app).meta, app, remote).value.value;
    var dl := Downloads(Missing(st, release.layers), remote, hash);
    var m := Encode(NewHeader(h, release));
    var switch := SwitchIfStored(DoAll(st, dl.effects), app, NewDigest(release.layers));
    PlanShape(st, app, h, release, remote, hash);
    DoAllConcat(st, dl.effects + switch, [WriteMeta(app, m)]);
    DoOne(DoAll(st, dl.effects + switch), WriteMeta(app, m));
    MetaAfterWrite(DoAll(st, dl.effects + switch), app, m);
    UpToDateAfter(AppOrNew(st, app).meta, app, remote);
  }

  // An update that is not resumable fails, and run again it goes on from where it failed.
  lemma OtherwiseGoesOn(st: StoreState, app: Name, remote: Remote, hash: HashFn)
    requires !UpdateResumable(st, app, remote, hash)
    ensures Updated(Updated(st, app, remote, hash), app, remote, hash) != Updated(st, app, remote, hash)
  {
    hide Do, DoAll, Missing, Downloads, Encode, Wanted, ReleasePlan, SwitchIfStored, FetchLayer, HasLayer;
    var (h, release) := Wanted(AppOrNew(st, app).meta, app, remote).value.value;
    var es := ReleasePlan(st, app, h, release, remote, hash).effects;
    var st1 := Updated(st, app, remote, hash);
    PlanShape(st, app, h, release, remote, hash);
    assert es[..|es|] == es;
    BeforeMeta(st, es, app, |es|);
    if Missing(st1, release.layers) == [] {
      PlanShape(st1, app, h, release, remote, hash);
      NoDownloads(remote, hash);
      NothingLeftToDo(st1, app, remote, hash);
    } else {
      StoresFirstMissing(st1, app, h, release, remote, hash);
    }
  }

  lemma NoDownloads(remote: Remote, hash: HashFn)
    ensures Downloads([], remote, hash) == Plan([], Ok(()))
  {
  }

  lemma StoresFirstMissing(st: StoreState, app: Name, h: BundleHeader, release: ReleaseInfo, remote: Remote,
                           hash: HashFn)
    requires var ms := Missing(st, release.layers); ms != [] && FetchLayer(ms[0], remote, hash).Ok?
    ensures DoAll(st, ReleasePlan(st, app, h, release, remote, hash).effects) != st
  {
    hide Do, DoAll, Missing, Encode, FetchLayer, HasLayer, SwitchIfStored;
    var ms := Missing(st, release.layers);
    var d, data := HexOf(ms[0]), FetchLayer(ms[0], remote, hash).value;
    var es := ReleasePlan(st, app, h, release, remote, hash).effects;
    assert es[..2] == [MakeLayerDir(d), WriteImage(d, data)];
    assert es == [MakeLayerDir(d), WriteImage(d, data)] + es[2..];
    StoringIsTwoEffects(st, d, data, es[2..]);
    NowStored(st, data, d);
    DoAllKeepsImages(WithLayer(st, data, d), es[2..], d);
    StepwiseMoves(st, release.layers, remote, hash);
  }

  lemma MetaAfterWrite(st: StoreState, app: Name, data: Bytes)
    ensures AppOrNew(Do(st, WriteMeta(app, data)), app).meta == Some(data)
  {
  }

  lemma ReleaseResumes(st: StoreState, app: Name, h: BundleHeader, release: ReleaseInfo, remote: Remote, hash: HashFn,
                       k: nat)
    requires OneImage(release.layers, remote, hash) && Resumable(st, release.layers, remote, hash)
    requires var plan := ReleasePlan(st, app, h, release, remote, hash);
             k < |plan.effects| || (plan.res.Err? && k <= |plan.effects|)
    ensures var st' := DoAll(st, ReleasePlan(st, app, h, release, remote, hash).effects[..k]);
            SameOutcome(st, st', app, h, release, remote, hash) && Resumable(st', release.layers, remote, hash)
  {
    hide Do, DoAll, Missing, Downloads, Encode, OneImage, Resumable, ReleasePlan, SwitchIfStored, SameOutcome;
    var es := ReleasePlan(st, app, h, release, remote, hash).effects;
    var dl := Downloads(Missing(st, release.layers), remote, hash);
    var n := |dl.effects|;
    PlanShape(st, app, h, release, remote, hash);
    if k <= n {
      assert es[..k] == dl.effects[..k];
      ResumesInDownloads(st, app, h, release, remote, hash, k);
    } else {
      var switch := SwitchIfStored(DoAll(st, dl.effects), app, NewDigest(release.layers));
      assert es[..k] == dl.effects + switch[..k - n];
      DoAllConcat(st, dl.effects, switch[..k - n]);
      ResumesInSwitch(st, app, h, release, remote, hash, k - n);
    }
  }

  // ----- Stops inside a write -----

  // An image that is there is never downloaded again.
  lemma UpdateKeepsImages(st: StoreState, app: Name, remote: Remote, hash: HashFn, d: Bytes)
    requires HasLayer(st, d)
    ensures HasLayer(Updated(st, app, remote, hash), d)
    ensures LayerImage(Updated(st, app, remote, hash), d) == LayerImage(st, d)
  {
    hide Do, DoAll, Missing, Downloads, Encode, Wanted, ReleasePlan, SwitchIfStored;
    var wanted := Wanted(AppOrNew(st, app).meta, app, remote);
    if wanted.Err? || wanted.value == None {
      DoNothing(st);
    } else {
      var (h, release) := wanted.value.value;
      var es := ReleasePlan(st, app, h, release, remote, hash).effects;
      PlanShape(st, app, h, release, remote, hash);
      DownloadsWriteMissing(st, release.layers, remote, hash);
      var dl := Downloads(Missing(st, release.layers), remote, hash);
      SwitchWritesNothing(DoAll(st, dl.effects), app, NewDigest(release.layers));
      OtherImagesKept(st, es, d);
    }
  }

  predicate Writes(e: Effect, d: Bytes) { e.WriteImage? && e.digest == d }

  lemma {:induction false} DownloadsWriteMissing(st: StoreState, ls: seq<LayerInfo>, remote: Remote, hash: HashFn)
    ensures forall e, d | e in Downloads(Missing(st, ls), remote, hash).effects && Writes(e, d) :: !HasLayer(st, d)
  {
    hide FetchLayer, HasLayer;
    if ls != [] {
      DownloadsWriteMissing(st, ls[1..], remote, hash);
      if !HasLayer(st, HexOf(ls[0])) {
        assert Missing(st, ls)[1..] == Missing(st, ls[1..]);
      }
    }
  }

  lemma SwitchWritesNothing(st: StoreState, app: Name, digest: Bytes)
    ensures forall e, d | e in SwitchIfStored(st, app, digest) :: !Writes(e, d)
  {
  }

  lemma {:induction false} OtherImagesKept(st: StoreState, es: seq<Effect>, d: Bytes)
    requires HasLayer(st, d) && forall e | e in es :: !Writes(e, d)
    ensures HasLayer(DoAll(st, es), d) && LayerImage(DoAll(st, es), d) == LayerImage(st, d)
    decreases es
  {
    if es != [] {
      assert es[0] in es;
      if es[0].WriteImage? {
        DirNameInjective(es[0].digest, d);
      }
      OtherImagesKept(Do(st, es[0]), es[1..], d);
    }
  }

  // Every image that the downloads write for a digest is the same one.
  lemma {:induction false} DownloadsWriteFetched(st: StoreState, ls: seq<LayerInfo>, remote: Remote, hash: HashFn)
    ensures forall e | e in Downloads(Missing(st, ls), remote, hash).effects && e.WriteImage? ::
              exists l :: l in ls && e.digest == HexOf(l) && FetchLayer(l, remote, hash) == Ok(e.data)
  {
    hide FetchLayer, HasLayer;
    if ls != [] {
      DownloadsWriteFetched(st, ls[1..], remote, hash);
      assert ls[0] in ls && forall l :: l in ls[1..] ==> l in ls;
      if !HasLayer(st, HexOf(ls[0])) {
        assert Missing(st, ls)[1..] == Missing(st, ls[1..]);
      }
    }
  }

  lemma {:induction false} SameWriteStays(st: StoreState, es: seq<Effect>, d: Bytes, data: Bytes)
    requires HasLayer(st, d) && LayerImage(st, d) == data
    requires forall e | e in es :: Writes(e, d) ==> e.data == data
    ensures HasLayer(DoAll(st, es), d) && LayerImage(DoAll(st, es), d) == data
    decreases es
  {
    if es != [] {
      assert es[0] in es;
      if es[0].WriteImage? {
        DirNameInjective(es[0].digest, d);
      }
      SameWriteStays(Do(st, es[0]), es[1..], d, data);
    }
  }

  lemma OneImageWritten(st: StoreState, app: Name, remote: Remote, hash: HashFn, e: Effect, e': Effect)
    requires UpdateOneImage(st, app, remote, hash)
    requires e in UpdatePlan(st, app, remote, hash).effects && e' in UpdatePlan(st, app, remote, hash).effects
    requires e.WriteImage? && e'.WriteImage? && e.digest == e'.digest
    ensures e.data == e'.data
  {
    hide Do, DoAll, Missing, Downloads, Encode, Wanted, ReleasePlan, SwitchIfStored, FetchLayer;
    var (h, release) := Wanted(AppOrNew(st, app).meta, app, remote).value.value;
    var dl := Downloads(Missing(st, release.layers), remote, hash);
    PlanShape(st, app, h, release, remote, hash);
    DownloadsWriteFetched(st, release.layers, remote, hash);
    SwitchWritesNothing(DoAll(st, dl.effects), app, NewDigest(release.layers));
    assert Writes(e, e.digest) && Writes(e', e'.digest);
    assert e in dl.effects && e' in dl.effects;
  }

  // What an update writes for a digest is what it leaves there.
  lemma WrittenImageStays(st: StoreState, app: Name, remote: Remote, hash: HashFn, k: nat)
    requires UpdateOneImage(st, app, remote, hash) && k < |UpdatePlan(st, app, remote, hash).effects|
    requires UpdatePlan(st, app, remote, hash).effects[k].WriteImage?
    ensures var WriteImage(d, data) := UpdatePlan(st, app, remote, hash).effects[k];
            HasLayer(Updated(st, app, remote, hash), d) && LayerImage(Updated(st, app, remote, hash), d) == data
  {
    hide Do, DoAll, UpdatePlan, UpdateOneImage, HasLayer;
    var es := UpdatePlan(st, app, remote, hash).effects;
    var WriteImage(d, data) := es[k];
    var before, rest := DoAll(st, es[..k]), es[k + 1..];
    forall e | e in rest && Writes(e, d)
      ensures e.data == data
    {
      OneImageWritten(st, app, remote, hash, e, es[k]);
    }
    NowStored(before, data, d);
    assert es == es[..k] + ([es[k]] + rest);
    DoAllConcat(st, es[..k], [es[k]] + rest);
    DoAllConcat(before, [es[k]], rest);
    DoOne(before, es[k]);
    DoesWrite(before, d, data);
    SameWriteStays(WithLayer(before, data, d), rest, d, data);
  }

  lemma DoesWrite(st: StoreState, d: Bytes, data: Bytes)
    ensures Do(st, WriteImage(d, data)) == WithLayer(st, data, d)
  {
  }

  // A run stopped inside the write of an image takes the cut image for the whole one.
  lemma TornImageStays(st: StoreState, app: Name, remote: Remote, hash: HashFn, k: nat, cut: nat)
    requires UpdateOneImage(st, app, remote, hash)
    requires LegalStop(UpdatePlan(st, app, remote, hash).effects, Stop(k, Some(cut)))
    requires UpdatePlan(st, app, remote, hash).effects[k].WriteImage?
    ensures var es := UpdatePlan(st, app, remote, hash).effects;
            var st' := Updated(Stopped(st, es, Stop(k, Some(cut))), app, remote, hash);
            && HasLayer(st', es[k].digest) && LayerImage(st', es[k].digest) == es[k].data[..cut]
            && st' != Updated(st, app, remote, hash)
  {
    hide DoAll, UpdatePlan, Updated, UpdateOneImage;
    var es := UpdatePlan(st, app, remote, hash).effects;
    var WriteImage(d, data) := es[k];
    var before := DoAll(st, es[..k]);
    var torn := WithLayer(before, data[..cut], d);
    NowStored(before, data[..cut], d);
    UpdateKeepsImages(torn, app, remote, hash, d);
    WrittenImageStays(st, app, remote, hash, k);
    assert |data[..cut]| != |data|;
  }

  // A run stopped inside the write of the metadata leaves an app that cannot be updated again.
  lemma TornMetaStays(st: StoreState, app: Name, remote: Remote, hash: HashFn, k: nat, cut: nat)
    requires LegalStop(UpdatePlan(st, app, remote, hash).effects, Stop(k, Some(cut)))
    requires UpdatePlan(st, app, remote, hash).effects[k].WriteMeta?
    ensures var es := UpdatePlan(st, app, remote, hash).effects;
            var torn := Stopped(st, es, Stop(k, Some(cut)));
            && UpdatePlan(torn, app, remote, hash) == Plan([], Err(BadMeta))
            && Updated(torn, app, remote, hash) != Updated(st, app, remote, hash)
  {
    hide Do, DoAll, Missing, Downloads, Encode, Parse, ReleasePlan, SwitchIfStored;
    var es := UpdatePlan(st, app, remote, hash).effects;
    var (h, release) := Wanted(AppOrNew(st, app).meta, app, remote).value.value;
    PlanShape(st, app, h, release, remote, hash);
    var h' := NewHeader(h, release);
    var m := Encode(h');
    assert k == |es| - 1 && es[k] == WriteMeta(app, m);
    var before := DoAll(st, es[..k]);
    var torn := Do(before, WriteMeta(app, m[..cut]));
    MetaAfterWrite(before, app, m[..cut]);
    MetaAfterWrite(before, app, m);
    ParsesOnlyWhole(h', cut);
    DoNothing(torn);
    assert es == es[..k] + [es[k]];
    DoAllConcat(st, es[..k], [es[k]]);
    DoOne(before, es[k]);
    assert |m[..cut]| != |m|;
  }

  // ----- Stops anywhere, and any number of them -----

  predicate ReachesSameState(st: StoreState, app: Name, remote: Remote, hash: HashFn, stop: Stop)
    requires LegalStop(UpdatePlan(st, app, remote, hash).effects, stop)
  {
    Updated(Stopped(st, UpdatePlan(st, app, remote, hash).effects, stop), app, remote, hash)
    == Updated(st, app, remote, hash)
  }

  // Running an update again reaches the state of an uninterrupted run from exactly the stops that
  // are not inside a file write, if and only if the update is resumable.
  lemma RestartReachesSameStateIff(st: StoreState, app: Name, remote: Remote, hash: HashFn)
    requires UpdateOneImage(st, app, remote, hash)
    ensures (forall stop | LegalStop(UpdatePlan(st, app, remote, hash).effects, stop) ::
               ReachesSameState(st, app, remote, hash, stop) <==> stop.cut == None)
       <==> UpdateResumable(st, app, remote, hash)
  {
    hide Do, DoAll, UpdatePlan, Updated, UpdateOneImage, UpdateResumable;
    var es := UpdatePlan(st, app, remote, hash).effects;
    if UpdateResumable(st, app, remote, hash) {
      forall stop | LegalStop(es, stop)
        ensures ReachesSameState(st, app, remote, hash, stop) <==> stop.cut == None
      {
        if stop.cut == None {
          BoundaryResumes(st, app, remote, hash, stop.done);
        } else {
          TornStops(st, app, remote, hash, stop);
        }
      }
    } else {
      var last := Stop(|es|, None);
      assert LegalStop(es, last) && es[..|es|] == es;
      OtherwiseGoesOn(st, app, remote, hash);
      UpdatedIsPlan(st, app, remote, hash);
      assert !ReachesSameState(st, app, remote, hash, last);
    }
  }

  lemma UpdatedIsPlan(st: StoreState, app: Name, remote: Remote, hash: HashFn)
    ensures Updated(st, app, remote, hash) == DoAll(st, UpdatePlan(st, app, remote, hash).effects)
  {
    hide DoAll, UpdatePlan;
  }

  // No update, resumable or not, recovers from a stop inside a file write.
  lemma TornStops(st: StoreState, app: Name, remote: Remote, hash: HashFn, stop: Stop)
    requires UpdateOneImage(st, app, remote, hash)
    requires LegalStop(UpdatePlan(st, app, remote, hash).effects, stop) && stop.cut.Some?
    ensures !ReachesSameState(st, app, remote, hash, stop)
  {
    hide Do, DoAll, UpdatePlan, Updated, UpdateOneImage;
    if UpdatePlan(st, app, remote, hash).effects[stop.done].WriteImage? {
      TornImageStays(st, app, remote, hash, stop.done, stop.cut.value);
    } else {
      TornMetaStays(st, app, remote, hash, stop.done, stop.cut.value);
    }
  }

  // The state after some runs, the i-th of them stopped after `stops[i]` effects or complete.
  function AfterStops(st: StoreState, app: Name, remote: Remote, hash: HashFn, stops: seq<nat>): StoreState
    decreases stops
  {
    if stops == [] then st
    else
      var es := UpdatePlan(st, app, remote, hash).effects;
      AfterStops(DoAll(st, es[..if stops[0] < |es| then stops[0] else |es|]), app, remote, hash, stops[1..])
  }

  lemma {:induction false} ManyStopsResume(st: StoreState, app: Name, remote: Remote, hash: HashFn, stops: seq<nat>)
    requires UpdateOneImage(st, app, remote, hash) && UpdateResumable(st, app, remote, hash)
    ensures var st' := AfterStops(st, app, remote, hash, stops);
            && Updated(st', app, remote, hash) == Updated(st, app, remote, hash)
            && (UpdatePlan(st', app, remote, hash).res.Ok? <==> UpdatePlan(st, app, remote, hash).res.Ok?)
    decreases stops
  {
    hide DoAll, UpdatePlan, Updated, UpdateOneImage, UpdateResumable;
    if stops != [] {
      var es := UpdatePlan(st, app, remote, hash).effects;
      var k := if stops[0] < |es| then stops[0] else |es|;
      BoundaryResumes(st, app, remote, hash, k);
      ManyStopsResume(DoAll(st, es[..k]), app, remote, hash, stops[1..]);
    }
  }

  // However often the runs before it were stopped between two effects, the last run reaches the
  // state and the success or failure of an uninterrupted one, if and only if the update is resumable.
  lemma ManyStopsResumeIff(st: StoreState, app: Name, remote: Remote, hash: HashFn)
    requires UpdateOneImage(st, app, remote, hash)
    ensures (forall stops :: var st' := AfterStops(st, app, remote, hash, stops);
               && Updated(st', app, remote, hash) == Updated(st, app, remote, hash)
               && (UpdatePlan(st', app, remote, hash).res.Ok? <==> UpdatePlan(st, app, remote, hash).res.Ok?))
       <==> UpdateResumable(st, app, remote, hash)
  {
    hide DoAll, UpdatePlan, Updated, UpdateOneImage, UpdateResumable, AfterStops;
    if UpdateResumable(st, app, remote, hash) {
      forall stops {
        ManyStopsResume(st, app, remote, hash, stops);
      }
    } else {
      var es := UpdatePlan(st, app, remote, hash).effects;
      AfterOneRun(st, app, remote, hash);
      UpdatedIsPlan(st, app, remote, hash);
      OtherwiseGoesOn(st, app, remote, hash);
      var st' := AfterStops(st, app, remote, hash, [|es|]);
      assert Updated(st', app, remote, hash) != Updated(st, app, remote, hash);
    }
  }

  lemma AfterOneRun(st: StoreState, app: Name, remote: Remote, hash: HashFn)
    ensures var es := UpdatePlan(st, app, remote, hash).effects;
            AfterStops(st, app, remote, hash, [|es|]) == DoAll(st, es)
  {
    hide DoAll, UpdatePlan;
    var es := UpdatePlan(st, app, remote, hash).effects;
    assert es[..|es|] == es && [|es|][1..] == [];
    assert AfterStops(DoAll(st, es), app, remote, hash, []) == DoAll(st, es);
  }

  // ----- The current layer -----

  ghost predicate CurrentStored(st: StoreState, app: Name) {
    app in st.apps && exists d :: st.apps[app].current == Some(CurrentTarget(d)) && HasLayer(st, d)
  }

  lemma {:induction false} CurrentSurvives(st: StoreState, es: seq<Effect>, app: Name)
    requires CurrentStored(st, app) && forall e | e in es :: !e.RenameTmp?
    ensures CurrentStored(DoAll(st, es), app)
    decreases es
  {
    if es != [] {
      assert es[0] in es;
      var d :| st.apps[app].current == Some(CurrentTarget(d)) && HasLayer(st, d);
      var st1 := Do(st, es[0]);
      DoKeepsImages(st, es[0], d);
      assert st1.apps[app].current == Some(CurrentTarget(d));
      CurrentSurvives(st1, es[1..], app);
    }
  }

  lemma CurrentInSwitch(st: StoreState, app: Name, digest: Bytes, j: nat)
    requires CurrentStored(st, app) && HasLayer(st, digest) && j <= 5
    ensures CurrentStored(DoAll(st, Switch(app, digest)[..j]), app)
  {
    var es := Switch(app, digest);
    if j <= 2 {
      CurrentSurvives(st, es[..j], app);
    } else {
      var st2 := Do(Do(st, es[0]), es[1]);
      var st3 := Do(st2, es[2]);
      assert es[..j] == [es[0]] + ([es[1]] + ([es[2]] + es[3..j]));
      DoAllConcat(st, [es[0]], [es[1]] + ([es[2]] + es[3..j]));
      DoAllConcat(Do(st, es[0]), [es[1]], [es[2]] + es[3..j]);
      DoAllConcat(st2, [es[2]], es[3..j]);
      DoOne(st, es[0]);
      DoOne(Do(st, es[0]), es[1]);
      DoOne(st2, es[2]);
      assert st3.apps[app].current == Some(CurrentTarget(digest)) && HasLayer(st3, digest);
      CurrentSurvives(st3, es[3..j], app);
    }
  }

  // At every stop of an update, inside a write or not, an app whose `current` named a stored layer
  // before still has a `current` that names one.
  lemma CurrentAlwaysStored(st: StoreState, app: Name, remote: Remote, hash: HashFn, stop: Stop)
    requires CurrentStored(st, app) && LegalStop(UpdatePlan(st, app, remote, hash).effects, stop)
    ensures CurrentStored(Stopped(st, UpdatePlan(st, app, remote, hash).effects, stop), app)
  {
    hide Do, DoAll, Missing, Downloads, Encode, Wanted, ReleasePlan, SwitchIfStored, CurrentStored;
    var es := UpdatePlan(st, app, remote, hash).effects;
    CurrentAtBoundary(st, app, remote, hash, stop.done);
    if stop.cut.Some? {
      var before := DoAll(st, es[..stop.done]);
      var e := es[stop.done];
      var torn := if e.WriteImage? then WriteImage(e.digest, e.data[..stop.cut.value])
                  else WriteMeta(e.app, e.data[..stop.cut.value]);
      CurrentSurvives(before, [torn], app);
      DoOne(before, torn);
    }
  }

  lemma CurrentAtBoundary(st: StoreState, app: Name, remote: Remote, hash: HashFn, k: nat)
    requires CurrentStored(st, app) && k <= |UpdatePlan(st, app, remote, hash).effects|
    ensures CurrentStored(DoAll(st, UpdatePlan(st, app, remote, hash).effects[..k]), app)
  {
    hide Do, DoAll, Missing, Downloads, Encode, Wanted, ReleasePlan, CurrentStored, HasLayer;
    var wanted := Wanted(AppOrNew(st, app).meta, app, remote);
    var es := UpdatePlan(st, app, remote, hash).effects;
    if wanted.Ok? && wanted.value.Some? {
      var (h, release) := wanted.value.value;
      var dl := Downloads(Missing(st, release.layers), remote, hash);
      var n := |dl.effects|;
      PlanShape(st, app, h, release, remote, hash);
      DownloadsWriteNoMeta(Missing(st, release.layers), remote, hash);
      if k <= n {
        assert es[..k] == dl.effects[..k];
        assert forall e :: e in dl.effects[..k] ==> e in dl.effects;
        CurrentSurvives(st, es[..k], app);
      } else {
        CurrentSurvives(st, dl.effects, app);
        var st1 := DoAll(st, dl.effects);
        var switch := SwitchIfStored(st1, app, NewDigest(release.layers));
        var j := if k - n <= |switch| then k - n else |switch|;
        if switch == [] {
          assert switch[..j] == [];
          DoNothing(st1);
        } else {
          CurrentInSwitch(st1, app, NewDigest(release.layers), j);
        }
        DoAllConcat(st, dl.effects, switch[..j]);
        if k - n <= |switch| {
          assert es[..k] == dl.effects + switch[..j];
        } else {
          assert switch[..j] == switch && es[..k] == (dl.effects + switch) + [es[k - 1]];
          DoAllConcat(st, dl.effects + switch, [es[k - 1]]);
          CurrentSurvives(DoAll(st, dl.effects + switch), [es[k - 1]], app);
        }
      }
    } else {
      assert es[..k] == [];
      DoNothing(st);
    }
  }
}
