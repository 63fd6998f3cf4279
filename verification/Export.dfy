/** Rebuilding a bundle from the store (`nxpk/src/commands/export.rs`). */
module Export {
  import opened ByteCodec
  import opened Wire
  import opened Header
  import opened BundleFile
  import opened ContentStore
  import opened Lifecycle
  import Packing

  // The stored image of a layer, found and checked.
  function ImageOf(st: StoreState, digest: Bytes, hash: HashFn): Result<Bytes, Error> {
    if !HasLayer(st, digest) then Err(LayerNotFound)
    else
      var _ :- VerifyDigest(hash, LayerImage(st, digest), digest);
      Ok(LayerImage(st, digest))
  }

  // The images of the first `n` layers.
  function StoredImages(st: StoreState, ls: seq<LayerRef>, n: nat, hash: HashFn): Result<Bytes, Error>
    requires n <= |ls|
  {
    if n == 0 then Ok([])
    else
      var before :- StoredImages(st, ls, n - 1, hash);
      var image :- ImageOf(st, DigestHex(ls[n - 1]), hash);
      Ok(before + image)
  }

  function Exported(st: StoreState, app: Name, stub: Bytes, hash: HashFn): Result<Bytes, Error> {
    if AppOrNew(st, app).meta == None then Err(NotInstalled)
    else
      var h :- Parse(AppOrNew(st, app).meta.value);
      var images :- StoredImages(st, h.layers, |h.layers|, hash);
      Ok(stub + (Encode(h) + images))
  }

  method ExportApp(store: Store, app: Name, stub: Bytes, hash: HashFn) returns (r: Result<Bytes, Error>)
    ensures r == Exported(store.State(), app, stub, hash)
  {
    hide Parse, Encode, ImageOf;
    var meta := if app in store.apps then store.apps[app].meta else None;
    if meta == None {
      return Err(NotInstalled);
    }
    var parsed := Parse(meta.value);
    if parsed.Err? {
      return Err(parsed.error);
    }
    var header := parsed.value;
    var out := stub;
    out := out + Encode(header);
    ghost var written := [];
    var ls := header.layers;
    for i := 0 to |ls|
      invariant StoredImages(store.State(), ls, i, hash) == Ok(written)
      invariant out == stub + Encode(header) + written
    {
      var digest := DigestHex(ls[i]);
      var step := NextImage(store, digest, hash);
      if step.Err? {
        ImagesStop(store.State(), ls, i, |ls|, hash);
        return Err(step.error);
      }
      Assoc(stub + Encode(header), written, step.value);
      out := out + step.value;
      written := written + step.value;
    }
    Assoc(stub, Encode(header), written);
    return Ok(out);
  }

  method NextImage(store: Store, digest: Bytes, hash: HashFn) returns (r: Result<Bytes, Error>)
    ensures r == ImageOf(store.State(), digest, hash)
  {
    if !HasLayer(store.State(), digest) {
      return Err(LayerNotFound);
    }
    var data := LayerImage(store.State(), digest);
    var checked := VerifyDigest(hash, data, digest);
    if checked.Err? {
      return Err(checked.error);
    }
    return Ok(data);
  }

  lemma {:induction false} ImagesStop(st: StoreState, ls: seq<LayerRef>, i: nat, n: nat, hash: HashFn)
    requires i < n <= |ls| && StoredImages(st, ls, i, hash).Ok? && ImageOf(st, DigestHex(ls[i]), hash).Err?
    ensures StoredImages(st, ls, n, hash) == Err(ImageOf(st, DigestHex(ls[i]), hash).error)
    decreases n
  {
    hide ImageOf;
    if i < n - 1 {
      ImagesStop(st, ls, i, n - 1, hash);
    }
  }

  // ----- What an export checks -----

  predicate StoredSound(st: StoreState, l: LayerRef, hash: HashFn) {
    HasLayer(st, DigestHex(l)) && hash(LayerImage(st, DigestHex(l))) == DigestHex(l)
  }

  lemma ImageIsSound(st: StoreState, l: LayerRef, hash: HashFn)
    ensures ImageOf(st, DigestHex(l), hash).Ok? <==> StoredSound(st, l, hash)
  {
  }

  lemma {:induction false} ImagesAreSound(st: StoreState, ls: seq<LayerRef>, n: nat, hash: HashFn)
    requires n <= |ls|
    ensures StoredImages(st, ls, n, hash).Ok? <==> forall j | 0 <= j < n :: StoredSound(st, ls[j], hash)
  {
    hide StoredSound, ImageOf;
    if n > 0 {
      ImageIsSound(st, ls[n - 1], hash);
      ImagesAreSound(st, ls, n - 1, hash);
    }
  }

  // For any store: an app is exported exactly when its metadata parses and every layer that it
  // lists is stored under the hash of its image.
  lemma ExportsIffSound(st: StoreState, app: Name, stub: Bytes, hash: HashFn)
    ensures var meta := AppOrNew(st, app).meta;
            Exported(st, app, stub, hash).Ok? <==>
            meta.Some? && Parse(meta.value).Ok? &&
            forall l | l in Parse(meta.value).value.layers :: StoredSound(st, l, hash)
  {
    hide StoredSound, Parse, Encode, StoredImages;
    var meta := AppOrNew(st, app).meta;
    if meta.Some? && Parse(meta.value).Ok? {
      var ls := Parse(meta.value).value.layers;
      ImagesAreSound(st, ls, |ls|, hash);
      assert forall l :: l in ls ==> exists j :: 0 <= j < |ls| && ls[j] == l;
    }
  }

  // What an exported file is: the stub, the stored header, and the stored images in order.
  lemma {:induction false} ImagesInOrder(st: StoreState, ls: seq<LayerRef>, n: nat, hash: HashFn)
      returns (images: seq<Bytes>)
    requires n <= |ls| && StoredImages(st, ls, n, hash).Ok?
    ensures |images| == n && StoredImages(st, ls, n, hash) == Ok(Concat(images))
    ensures forall i | 0 <= i < n :: HasLayer(st, DigestHex(ls[i])) && images[i] == LayerImage(st, DigestHex(ls[i]))
  {
    hide ImageOf, Concat, HasLayer;
    if n == 0 {
      images := [];
      NothingToConcat();
    } else {
      var before := ImagesInOrder(st, ls, n - 1, hash);
      var image := ImageOf(st, DigestHex(ls[n - 1]), hash).value;
      ImageIsStored(st, DigestHex(ls[n - 1]), hash);
      ConcatSnoc(before, image);
      images := before + [image];
    }
  }

  lemma NothingToConcat()
    ensures Concat([]) == []
  {
  }

  lemma ConcatSnoc(images: seq<Bytes>, image: Bytes)
    ensures Concat(images + [image]) == Concat(images) + image
  {
    assert (images + [image])[..|images|] == images;
  }

  lemma ImageIsStored(st: StoreState, digest: Bytes, hash: HashFn)
    requires ImageOf(st, digest, hash).Ok?
    ensures HasLayer(st, digest) && ImageOf(st, digest, hash).value == LayerImage(st, digest)
  {
  }

  lemma ExportedFile(st: StoreState, app: Name, stub: Bytes, hash: HashFn) returns (images: seq<Bytes>)
    requires Exported(st, app, stub, hash).Ok?
    ensures app in st.apps && st.apps[app].meta.Some? && Parse(st.apps[app].meta.value).Ok?
    ensures var h := Parse(st.apps[app].meta.value).value;
            && |images| == |h.layers|
            && (forall i | 0 <= i < |images| ::
                  HasLayer(st, DigestHex(h.layers[i])) && images[i] == LayerImage(st, DigestHex(h.layers[i])))
            && Exported(st, app, stub, hash) == Ok((stub + Encode(h)) + Concat(images))
  {
    hide Parse, Encode, StoredImages, HasLayer;
    var h := Parse(AppOrNew(st, app).meta.value).value;
    images := ImagesInOrder(st, h.layers, |h.layers|, hash);
    Assoc(stub, Encode(h), Concat(images));
  }

  // Why there is none: no metadata, metadata that does not parse, or the first layer that is not
  // stored or not what its digest says.
  lemma ExportErrorIff(st: StoreState, app: Name, stub: Bytes, hash: HashFn)
    ensures Exported(st, app, stub, hash) == Err(NotInstalled) <==> AppOrNew(st, app).meta == None
    ensures AppOrNew(st, app).meta.Some? && Parse(AppOrNew(st, app).meta.value).Err? ==>
              Exported(st, app, stub, hash) == Err(Parse(AppOrNew(st, app).meta.value).error)
  {
    hide Parse, Encode, StoredImages;
    var meta := AppOrNew(st, app).meta;
    if meta.Some? {
      ParseErrorIff(meta.value);
      if Parse(meta.value).Ok? {
        ImagesNeverMissMeta(st, Parse(meta.value).value.layers, |Parse(meta.value).value.layers|, hash);
      }
    }
  }

  lemma {:induction false} ImagesNeverMissMeta(st: StoreState, ls: seq<LayerRef>, n: nat, hash: HashFn)
    requires n <= |ls|
    ensures StoredImages(st, ls, n, hash) != Err(NotInstalled)
  {
    hide HasLayer;
    if n > 0 {
      ImagesNeverMissMeta(st, ls, n - 1, hash);
    }
  }

  lemma ExportFailsAtFirst(st: StoreState, app: Name, stub: Bytes, hash: HashFn, i: nat)
    requires AppOrNew(st, app).meta.Some? && Parse(AppOrNew(st, app).meta.value).Ok?
    requires var ls := Parse(AppOrNew(st, app).meta.value).value.layers;
             i < |ls| && !StoredSound(st, ls[i], hash) && forall j | 0 <= j < i :: StoredSound(st, ls[j], hash)
    ensures var d := DigestHex(Parse(AppOrNew(st, app).meta.value).value.layers[i]);
            Exported(st, app, stub, hash) ==
            Err(if !HasLayer(st, d) then LayerNotFound else DigestMismatch(d, hash(LayerImage(st, d))))
  {
    hide Parse, Encode, HasLayer;
    var ls := Parse(AppOrNew(st, app).meta.value).value.layers;
    ImagesAreSound(st, ls, i, hash);
    ImagesStop(st, ls, i, |ls|, hash);
  }

  // ----- Install, then export -----

  // The hash tells the byte strings in play apart.
  predicate NoCollisions(known: set<Bytes>, hash: HashFn) {
    forall x, y | x in known && y in known :: hash(x) == hash(y) ==> x == y
  }

  function StoredData(st: StoreState): set<Bytes> {
    set n | n in st.layers && st.layers[n].Some? :: st.layers[n].value
  }

  function LayerData(b: Bundle): set<Bytes> {
    set i | 0 <= i < |b.header.layers| && b.LayerAt(i).Ok? :: b.LayerAt(i).value
  }

  lemma StoreOneKnown(st: StoreState, data: Bytes, d: Bytes, known: set<Bytes>)
    requires StoredData(st) <= known && data in known
    ensures StoredData(WithLayer(st, data, d)) <= known
  {
    var st' := WithLayer(st, data, d);
    forall x | x in StoredData(st')
      ensures x in known
    {
      var n :| n in st'.layers && st'.layers[n].Some? && st'.layers[n].value == x;
      if n != DirName(d) {
        assert st.layers[n].value in StoredData(st);
      }
    }
  }

  // Storing a bundle that verifies goes through, skipped layers included, and adds only its layers.
  lemma {:induction false} VerifiedBundleStores(st: StoreState, b: Bundle, hash: HashFn, i: nat, known: set<Bytes>)
    requires StoredData(st) <= known && LayerData(b) <= known
    requires forall j | 0 <= j < |b.header.layers| :: LayerVerifies(b, hash, j)
    ensures var o := StoreLayers(st, b, hash, true, i);
            o.res.Ok? && StoredData(o.st) <= known
    decreases |b.header.layers| - i
  {
    hide Bundle.LayerAt, HasLayer, WithLayer, StoredData;
    if i < |b.header.layers| {
      var d := DigestHex(b.header.layers[i]);
      assert LayerVerifies(b, hash, i);
      var data := b.LayerAt(i).value;
      if HasLayer(st, d) {
        VerifiedBundleStores(st, b, hash, i + 1, known);
      } else {
        assert data in LayerData(b);
        StoreOneKnown(st, data, d, known);
        VerifiedBundleStores(WithLayer(st, data, d), b, hash, i + 1, known);
      }
    }
  }

  lemma KnownImage(st: StoreState, hash: HashFn, d: Bytes, data: Bytes, known: set<Bytes>)
    requires ContentAddressed(st, hash) && HasLayer(st, d) && StoredData(st) <= known
    requires NoCollisions(known, hash) && data in known && hash(data) == d
    ensures LayerImage(st, d) == data
  {
    ImageHasDigest(st, hash, d);
    assert LayerImage(st, d) in StoredData(st);
  }

  lemma {:induction false} ImagesAreLayers(st: StoreState, b: Bundle, n: nat, hash: HashFn)
    requires n <= |b.header.layers| && AllExtract(b)
    requires forall j | 0 <= j < |b.header.layers| :: ImageOf(st, DigestHex(b.header.layers[j]), hash) == b.LayerAt(j)
    ensures StoredImages(st, b.header.layers, n, hash) == Ok(Concat(Packing.Extracted(b)[..n]))
  {
    hide Bundle.LayerAt, ImageOf;
    var images := Packing.Extracted(b);
    if n > 0 {
      ImagesAreLayers(st, b, n - 1, hash);
      assert images[..n][..n - 1] == images[..n - 1];
      assert ImageOf(st, DigestHex(b.header.layers[n - 1]), hash) == b.LayerAt(n - 1) == Ok(images[n - 1]);
    }
  }

  // After an install of a bundle that verifies, every layer of it is in the store as it was in the bundle.
  lemma InstalledImages(st: StoreState, data: Bytes, b: Bundle, hash: HashFn)
    requires ContentAddressed(st, hash) && ParseBundle(data) == Ok(b) && b.VerifyLayers(hash).Ok?
    requires NoCollisions(StoredData(st) + LayerData(b), hash)
    ensures Installed(st, data, hash).res.Ok?
    ensures forall j | 0 <= j < |b.header.layers| ::
              ImageOf(Installed(st, data, hash).st, DigestHex(b.header.layers[j]), hash) == b.LayerAt(j)
  {
    hide Parse, Encode, Bundle.LayerAt, StoreLayers, ContentAddressed, NoCollisions, StoredData, ParseBundle;
    var known := StoredData(st) + LayerData(b);
    VerifiedIff(b, hash);
    VerifiedBundleStores(st, b, hash, 0, known);
    StoreLayersKeeps(st, b, hash, true, 0);
    var stored := StoreLayers(st, b, hash, true, 0).st;
    var st' := Installed(st, data, hash).st;
    assert st'.layers == stored.layers;
    forall j | 0 <= j < |b.header.layers|
      ensures ImageOf(st', DigestHex(b.header.layers[j]), hash) == b.LayerAt(j)
    {
      assert LayerVerifies(b, hash, j);
      var image := b.LayerAt(j).value;
      assert image in LayerData(b);
      KnownImage(stored, hash, DigestHex(b.header.layers[j]), image, known);
    }
  }

  // Exporting right after an install gives a bundle with the same header and the same layers,
  // whichever of them were in the store before.
  lemma InstallThenExport(st: StoreState, data: Bytes, stub: Bytes, hash: HashFn)
    returns (b: Bundle, out: Bytes, b': Bundle)
    requires |data| < LENGTH_LIMIT && FindMagic(stub) == None && ContentAddressed(st, hash)
    requires ParseBundle(data).Ok? && ParseBundle(data).value.VerifyLayers(hash).Ok?
    requires NoCollisions(StoredData(st) + LayerData(ParseBundle(data).value), hash)
    ensures ParseBundle(data) == Ok(b) && Installed(st, data, hash).res.Ok?
    ensures Exported(Installed(st, data, hash).st, b.header.appId, stub, hash) == Ok(out)
    ensures ParseBundle(out) == Ok(b') && SameFields(b'.header, b.header) && b'.header.offset == |stub|
    ensures |out| < LENGTH_LIMIT ==>
              && (forall i | 0 <= i < |b.header.layers| :: b'.LayerAt(i) == b.LayerAt(i))
              && b'.VerifyLayers(hash).Ok?
  {
    hide Parse, Encode, FindMagic, Bundle.LayerAt, StoreLayers, ContentAddressed, NoCollisions, StoredData,
      StoredImages,
      Concat, LayerData, ImageOf, HasLayer;
    b := ParseBundle(data).value;
    var st' := Installed(st, data, hash).st;
    InstalledImages(st, data, b, hash);
    VerifiedIff(b, hash);
    ParsedIsNormal(data);
    NothingHasNoMagic();
    ParseEncoded([], b.header, []);
    assert [] + (Encode(b.header) + []) == Encode(b.header);
    var h := Located(b.header, 0, |Encode(b.header)|);
    EncodeIgnoresPlace(b.header, h);
    assert Parse(AppOrNew(st', b.header.appId).meta.value) == Ok(h);
    var images := Packing.Extracted(b);
    ImagesAreLayers(st', b, |b.header.layers|, hash);
    assert images[..|images|] == images;
    out := stub + (Encode(h) + Concat(images));
    ParseEncoded(stub, h, Concat(images));
    b' := Bundle(Located(Normal(h), |stub|, |Encode(h)|), out);
    if |out| < LENGTH_LIMIT {
      Assoc(stub, Encode(h), Concat(images));
      Packing.SameLayers(b, b', stub + Encode(h));
      SameLayersVerify(b, b', hash);
    }
  }

  lemma SameLayersVerify(b: Bundle, b': Bundle, hash: HashFn)
    requires b.VerifyLayers(hash).Ok? && b'.header.layers == b.header.layers
    requires forall i | 0 <= i < |b.header.layers| :: b'.LayerAt(i) == b.LayerAt(i)
    ensures b'.VerifyLayers(hash).Ok?
  {
    hide Bundle.LayerAt;
    VerifiedIff(b, hash);
    forall i | 0 <= i < |b.header.layers|
      ensures LayerVerifies(b', hash, i)
    {
      assert LayerVerifies(b, hash, i);
    }
    VerifiedIff(b', hash);
  }
}
