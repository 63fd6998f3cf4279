/**
 Writing a bundle: `pack` and `sign` (`nxpk/src/commands/pack.rs`, `nxpk/src/commands/sign.rs`,
 `nexpack-core/src/signing.rs`).

 The layer images, the SBOM, the bootstrap binaries and the signature are inputs.
 */
module Packing {
  import opened ByteCodec
  import opened Permission
  import opened Wire
  import opened Header
  import opened BundleFile
  import Bootstrap

  datatype AppSpec = AppSpec(id: Bytes, version: Bytes, entrypoint: Bytes, permissions: PermissionSet)
  datatype LayerSource = LayerSource(role: Bytes, image: Bytes)
  datatype BootstrapSpec = BootstrapSpec(nexpackd: Option<Bytes>, nxpk: Option<Bytes>)

  const NEXPACKD: Bytes := [0x6E, 0x65, 0x78, 0x70, 0x61, 0x63, 0x6B, 0x64] // "nexpackd"
  const NXPK: Bytes := [0x6E, 0x78, 0x70, 0x6B] // "nxpk"

  function EmbeddedEntries(spec: Option<BootstrapSpec>): seq<Bootstrap.Entry> {
    if spec == None then []
    else
      (if spec.value.nexpackd.Some? then [Bootstrap.Entry(NEXPACKD, spec.value.nexpackd.value)] else [])
      + (if spec.value.nxpk.Some? then [Bootstrap.Entry(NXPK, spec.value.nxpk.value)] else [])
  }

  function SourceLayer(s: LayerSource, hash: HashFn): LayerRef {
    LayerRef(DIGEST_PREFIX + hash(s.image), |s.image| % U64_LIMIT, s.role)
  }

  function SourceLayers(sources: seq<LayerSource>, hash: HashFn): (r: seq<LayerRef>)
    ensures |r| == |sources|
    ensures forall i :: 0 <= i < |sources| ==> r[i] == SourceLayer(sources[i], hash)
  {
    seq(|sources|, i requires 0 <= i < |sources| => SourceLayer(sources[i], hash))
  }

  function Images(sources: seq<LayerSource>): (r: seq<Bytes>)
    ensures |r| == |sources|
    ensures forall i :: 0 <= i < |sources| ==> r[i] == sources[i].image
  {
    seq(|sources|, i requires 0 <= i < |sources| => sources[i].image)
  }

  function PackedHeader(app: AppSpec, sources: seq<LayerSource>, sbom: Bytes, boot: Option<BootstrapSpec>,
                        hash: HashFn): BundleHeader
  {
    var es := EmbeddedEntries(boot);
    BundleHeader(1, app.id, app.version, app.entrypoint, SourceLayers(sources, hash), app.permissions,
                 None, Some(sbom), None,
                 if es == [] then None else Some(|Bootstrap.BootstrapData(es)| % U64_LIMIT), 0, 0)
  }

  // The end of a packed file: nothing, or the section and a trailer that points back at it.
  function PackedTail(at: nat, es: seq<Bootstrap.Entry>): Bytes {
    if es == [] then []
    else
      var boot := Bootstrap.BootstrapData(es);
      boot + Bootstrap.BootstrapTrailer(at % U64_LIMIT, |boot| % U64_LIMIT)
  }

  function PackedFile(stub: Bytes, app: AppSpec, sources: seq<LayerSource>, sbom: Bytes, boot: Option<BootstrapSpec>,
                      hash: HashFn): Bytes
  {
    var head := stub + Encode(PackedHeader(app, sources, sbom, boot, hash));
    var body := head + Concat(Images(sources));
    body + PackedTail(|body|, EmbeddedEntries(boot))
  }

  method Pack(stub: Bytes, app: AppSpec, sources: seq<LayerSource>, sbom: Bytes, boot: Option<BootstrapSpec>,
              hash: HashFn)
    returns (r: Result<Bytes, Error>)
    ensures r == if sources == [] then Err(NoLayers) else Ok(PackedFile(stub, app, sources, sbom, boot, hash))
  {
    hide Encode, Bootstrap.BootstrapData, Bootstrap.BootstrapTrailer, Concat;
    var layers, layerData := BuildLayers(sources, hash);
    if layers == [] {
      return Err(NoLayers);
    }
    var bootstrapData := BuildBootstrapData(boot);
    var header := BundleHeader(1, app.id, app.version, app.entrypoint, layers, app.permissions, None, Some(sbom), None,
                               if bootstrapData == None then None else Some(|bootstrapData.value| % U64_LIMIT), 0, 0);
    var out := stub;
    out := out + Encode(header);
    out := WriteAll(out, layerData);
    if bootstrapData.Some? {
      var bootOffset := |out| % U64_LIMIT;
      ghost var body := out;
      out := out + bootstrapData.value;
      var trailer := Bootstrap.BootstrapTrailer(bootOffset, |bootstrapData.value| % U64_LIMIT);
      out := out + trailer;
      Assoc(body, bootstrapData.value, trailer);
    } else {
      assert out + [] == out;
    }
    return Ok(out);
  }

  method BuildLayers(sources: seq<LayerSource>, hash: HashFn) returns (layers: seq<LayerRef>, layerData: seq<Bytes>)
    ensures layers == SourceLayers(sources, hash) && layerData == Images(sources)
  {
    layers, layerData := [], [];
    for i := 0 to |sources|
      invariant layers == SourceLayers(sources, hash)[..i]
      invariant layerData == Images(sources)[..i]
    {
      var image := sources[i].image;
      layers := layers + [LayerRef(DIGEST_PREFIX + hash(image), |image| % U64_LIMIT, sources[i].role)];
      layerData := layerData + [image];
    }
  }

  method WriteAll(head: Bytes, images: seq<Bytes>) returns (out: Bytes)
    ensures out == head + Concat(images)
  {
    out := head;
    for i := 0 to |images|
      invariant out == head + Concat(images[..i])
    {
      assert images[..i + 1][..i] == images[..i];
      Assoc(head, Concat(images[..i]), images[i]);
      out := out + images[i];
    }
    assert images[..|images|] == images;
  }

  method BuildBootstrapData(spec: Option<BootstrapSpec>) returns (r: Option<Bytes>)
    ensures r == if EmbeddedEntries(spec) == [] then None else Some(Bootstrap.BootstrapData(EmbeddedEntries(spec)))
  {
    if spec == None {
      return None;
    }
    var entries: seq<Bootstrap.Entry> := [];
    if spec.value.nexpackd.Some? {
      entries := entries + [Bootstrap.Entry(NEXPACKD, spec.value.nexpackd.value)];
    }
    if spec.value.nxpk.Some? {
      entries := entries + [Bootstrap.Entry(NXPK, spec.value.nxpk.value)];
    }
    assert entries == EmbeddedEntries(spec);
    if entries == [] {
      return None;
    }
    var data := Bootstrap.MakeBootstrapData(entries);
    return Some(data);
  }

  // ----- What a packed file holds -----

  lemma SourcesVerify(sources: seq<LayerSource>, hash: HashFn, i: nat)
    requires i < |sources|
    ensures DigestHex(SourceLayers(sources, hash)[i]) == hash(sources[i].image)
  {
    var d := DIGEST_PREFIX + hash(sources[i].image);
    assert d[|DIGEST_PREFIX|..] == hash(sources[i].image);
  }

  // The file with its parts named: the packed header is found and parsed at the end of the stub.
  lemma PackedParses(stub: Bytes, app: AppSpec, sources: seq<LayerSource>, sbom: Bytes, boot: Option<BootstrapSpec>,
                     hash: HashFn) returns (b: Bundle, tail: Bytes)
    requires FindMagic(stub) == None
    ensures var file := PackedFile(stub, app, sources, sbom, boot, hash);
            var h := PackedHeader(app, sources, sbom, boot, hash);
            && ParseBundle(file) == Ok(b) && b.data == file
            && b.header == Located(Normal(h), |stub|, |Encode(h)|)
            && file == (stub + Encode(h)) + (Concat(Images(sources)) + tail)
  {
    hide Encode, Parse, FindMagic, Concat, PackedTail, PackedHeader;
    var file, h := PackedFile(stub, app, sources, sbom, boot, hash), PackedHeader(app, sources, sbom, boot, hash);
    var e, images := Encode(h), Images(sources);
    tail := PackedTail(|stub + e + Concat(images)|, EmbeddedEntries(boot));
    Assoc(stub + e, Concat(images), tail);
    Assoc(stub, e, Concat(images) + tail);
    ParseEncoded(stub, h, Concat(images) + tail);
    b := Bundle(Located(Normal(h), |stub|, |e|), file);
  }

  // The header of a packed file says what the spec said.
  lemma PackedFields(stub: Bytes, app: AppSpec, sources: seq<LayerSource>, sbom: Bytes, boot: Option<BootstrapSpec>,
                     hash: HashFn) returns (h: BundleHeader)
    requires FindMagic(stub) == None
    ensures Parse(PackedFile(stub, app, sources, sbom, boot, hash)) == Ok(h)
    ensures h.version == 1 && h.appId == app.id && h.appVersion == app.version && h.entrypoint == app.entrypoint
    ensures h.permissions == app.permissions && h.signature == None && h.sbom == NonEmpty(sbom) && h.updateUrl == None
    ensures |h.layers| == |sources| && forall i | 0 <= i < |sources| ::
              && h.layers[i].role == sources[i].role
              && h.layers[i].digest == Ascii("blake3:") + hash(sources[i].image)
              && (|sources[i].image| < LENGTH_LIMIT ==> h.layers[i].size == |sources[i].image|)
  {
    hide Encode, Parse, FindMagic, Concat, PackedFile, Ascii;
    var b, tail := PackedParses(stub, app, sources, sbom, boot, hash);
    h := b.header;
    assert Ascii("blake3:") == DIGEST_PREFIX by { PrefixIs(); }
    forall i | 0 <= i < |sources|
      ensures h.layers[i].role == sources[i].role && h.layers[i].digest == Ascii("blake3:") + hash(sources[i].image)
      ensures |sources[i].image| < LENGTH_LIMIT ==> h.layers[i].size == |sources[i].image|
    {
      assert h.layers[i] == SourceLayer(sources[i], hash);
    }
  }

  lemma PrefixIs()
    ensures DIGEST_PREFIX == Ascii("blake3:")
  {
  }

  // Every image comes back from its own layer, the layers end where they were written, and they verify.
  lemma PackedLayers(stub: Bytes, app: AppSpec, sources: seq<LayerSource>, sbom: Bytes, boot: Option<BootstrapSpec>,
                     hash: HashFn) returns (b: Bundle)
    requires FindMagic(stub) == None
    requires |PackedFile(stub, app, sources, sbom, boot, hash)| < LENGTH_LIMIT
    ensures var file := PackedFile(stub, app, sources, sbom, boot, hash);
            var h := PackedHeader(app, sources, sbom, boot, hash);
            && ParseBundle(file) == Ok(b) && b.data == file
            && b.header == Located(Normal(h), |stub|, |Encode(h)|)
            && b.LayersEndSpec() == |stub + Encode(h) + Concat(Images(sources))|
    ensures forall i | 0 <= i < |sources| :: b.LayerAt(i) == Ok(sources[i].image)
    ensures b.VerifyLayers(hash).Ok?
  {
    hide Encode, ParseBundle, FindMagic, Concat, PackedFile, Bundle.LayerAt, Bundle.LayersEndSpec, Bundle.VerifyFrom;
    var images, tail := Images(sources), [];
    b, tail := PackedParses(stub, app, sources, sbom, boot, hash);
    forall i | 0 <= i < |sources|
      ensures b.header.layers[i].size == |images[i]|
    {
      ConcatSlice(images, i);
    }
    LayoutExtracts(b, stub + Encode(PackedHeader(app, sources, sbom, boot, hash)), images, tail);
    forall i | 0 <= i < |sources|
      ensures b.LayerAt(i) == Ok(sources[i].image) && LayerVerifies(b, hash, i)
    {
      assert b.LayerAt(i) == Ok(images[i]);
      SourcesVerify(sources, hash, i);
    }
    VerifiedIff(b, hash);
  }

  // Where the embedded binaries are: the header's offset, the end of the layers and the trailer
  // agree, and what lies there is the encoded entries.
  lemma PackedBootstrap(stub: Bytes, app: AppSpec, sources: seq<LayerSource>, sbom: Bytes, boot: Option<BootstrapSpec>,
                        hash: HashFn) returns (b: Bundle)
    requires FindMagic(stub) == None && EmbeddedEntries(boot) != []
    requires |PackedFile(stub, app, sources, sbom, boot, hash)| < LENGTH_LIMIT
    ensures var file := PackedFile(stub, app, sources, sbom, boot, hash);
            var data := Bootstrap.BootstrapData(EmbeddedEntries(boot));
            && ParseBundle(file) == Ok(b)
            && b.BootstrapOffset() == Some(b.LayersEndSpec())
            && Bootstrap.ReadTrailer(file) == Some((b.LayersEndSpec(), |data|))
            && b.BootstrapSlice() == Ok(Some(data))
  {
    hide Encode, FindMagic, Concat, Bootstrap.ReadTrailer, Bootstrap.BootstrapData, ParseBundle, PackedTail,
      Bundle.LayerAt, Bundle.VerifyLayers, Bundle.LayersEndSpec, EmbeddedEntries;
    b := PackedLayers(stub, app, sources, sbom, boot, hash);
    var file, h := PackedFile(stub, app, sources, sbom, boot, hash), PackedHeader(app, sources, sbom, boot, hash);
    var body := stub + Encode(h) + Concat(Images(sources));
    var data := Bootstrap.BootstrapData(EmbeddedEntries(boot));
    DataIsNotEmpty(EmbeddedEntries(boot));
    TailPointsBack(body, EmbeddedEntries(boot));
    WrapBelow(|body| + |data|);
  }

  // Without embedded binaries the file ends with its layers and declares no section.
  lemma PackedWithoutBootstrap(stub: Bytes, app: AppSpec, sources: seq<LayerSource>, sbom: Bytes,
                               boot: Option<BootstrapSpec>, hash: HashFn) returns (b: Bundle)
    requires FindMagic(stub) == None && EmbeddedEntries(boot) == []
    requires |PackedFile(stub, app, sources, sbom, boot, hash)| < LENGTH_LIMIT
    ensures boot == None || boot.value == BootstrapSpec(None, None)
    ensures ParseBundle(PackedFile(stub, app, sources, sbom, boot, hash)) == Ok(b)
    ensures b.LayersEndSpec() == |PackedFile(stub, app, sources, sbom, boot, hash)|
    ensures b.BootstrapOffset() == None && b.BootstrapSlice() == Ok(None)
  {
    hide Encode, FindMagic, Concat, ParseBundle, Bundle.LayerAt, Bundle.VerifyLayers, Bundle.LayersEndSpec;
    b := PackedLayers(stub, app, sources, sbom, boot, hash);
    NoBootstrapDeclared(b);
  }

  // With them it ends with their section and the 20 bytes of the trailer.
  lemma PackedEnd(stub: Bytes, app: AppSpec, sources: seq<LayerSource>, sbom: Bytes, boot: Option<BootstrapSpec>,
                  hash: HashFn) returns (b: Bundle)
    requires FindMagic(stub) == None && EmbeddedEntries(boot) != []
    requires |PackedFile(stub, app, sources, sbom, boot, hash)| < LENGTH_LIMIT
    ensures ParseBundle(PackedFile(stub, app, sources, sbom, boot, hash)) == Ok(b)
    ensures |PackedFile(stub, app, sources, sbom, boot, hash)|
         == b.LayersEndSpec() + |Bootstrap.BootstrapData(EmbeddedEntries(boot))| + 20
  {
    hide Encode, FindMagic, Concat, Bootstrap.BootstrapData, Bootstrap.BootstrapTrailer, ParseBundle,
      Bundle.LayerAt, Bundle.VerifyLayers, Bundle.LayersEndSpec, EmbeddedEntries;
    b := PackedLayers(stub, app, sources, sbom, boot, hash);
  }

  lemma DataIsNotEmpty(es: seq<Bootstrap.Entry>)
    ensures |Bootstrap.BootstrapData(es)| >= 4
  {
    hide Little, Bootstrap.MakeEntries;
  }

  lemma TailPointsBack(body: Bytes, es: seq<Bootstrap.Entry>)
    requires es != [] && |body + PackedTail(|body|, es)| < LENGTH_LIMIT
    ensures var file, data := body + PackedTail(|body|, es), Bootstrap.BootstrapData(es);
            && Bootstrap.ReadTrailer(file) == Some((|body|, |data|))
            && |body| + |data| <= |file| && file[|body|..|body| + |data|] == data
  {
    hide Bootstrap.ReadTrailer, Bootstrap.BootstrapData, Bootstrap.BootstrapTrailer;
    var data := Bootstrap.BootstrapData(es);
    assert |body| < U64_LIMIT && |data| < U64_LIMIT;
    var trailer := Bootstrap.BootstrapTrailer(|body|, |data|);
    var file := body + (data + trailer);
    assert file[|file| - 20..] == trailer;
    assert file[|body|..|body| + |data|] == data;
    Bootstrap.TrailerRoundTrip(file, |body|, |data|);
  }

  // The whole law, for any stub: when the stub has no magic of its own the packed file's header
  // is found at the end of the stub, and otherwise it is not.
  lemma PackFindsHeaderIff(stub: Bytes, app: AppSpec, sources: seq<LayerSource>, sbom: Bytes,
                           boot: Option<BootstrapSpec>, hash: HashFn)
    ensures FindMagic(PackedFile(stub, app, sources, sbom, boot, hash)) == Some(|stub|) <==> FindMagic(stub) == None
  {
    hide FindMagic, Concat, PackedTail, Write;
    var h := PackedHeader(app, sources, sbom, boot, hash);
    var e, layers, w := Encode(h), Concat(Images(sources)), Write(ToRecord(h));
    var tail := PackedTail(|stub + e + layers|, EmbeddedEntries(boot));
    Assoc(stub + e, layers, tail);
    Assoc(stub, e, layers + tail);
    Assoc(MAGIC, w, layers + tail);
    MagicAfter(stub, w + (layers + tail));
  }

  // The entries that come out are the entries that went in, exactly when each binary fits the
  // 32-bit length field.
  lemma PackEntriesRoundTripIff(lossy: Bytes -> Bytes, stub: Bytes, app: AppSpec, sources: seq<LayerSource>,
                                sbom: Bytes, boot: Option<BootstrapSpec>, hash: HashFn) returns (b: Bundle)
    requires FindMagic(stub) == None && EmbeddedEntries(boot) != []
    requires |PackedFile(stub, app, sources, sbom, boot, hash)| < LENGTH_LIMIT
    requires lossy(NEXPACKD) == NEXPACKD && lossy(NXPK) == NXPK
    ensures ParseBundle(PackedFile(stub, app, sources, sbom, boot, hash)) == Ok(b)
    ensures b.ExtractBootstrap(lossy) == Ok(EmbeddedEntries(boot)) <==>
            forall e | e in EmbeddedEntries(boot) :: |e.data| < U32_LIMIT
  {
    hide PackedFile, ParseBundle, Bootstrap.BootstrapData, Bootstrap.ReadSection, Bundle.BootstrapSlice;
    b := PackedBootstrap(stub, app, sources, sbom, boot, hash);
    var es := EmbeddedEntries(boot);
    var data := Bootstrap.BootstrapData(es);
    assert forall e :: e in es ==> e.name in [NEXPACKD, NXPK];
    if Bootstrap.InBounds(es) {
      Bootstrap.ParserRoundTrip(lossy, es, []);
      assert data + [] == data;
    }
    if Bootstrap.ParsedEntries(lossy, data) == Ok(es) {
      var (raw, rest) := Bootstrap.ReadSection(data).value;
      Bootstrap.AcceptsExactlyEncodings(data, raw, rest);
      forall e | e in es
        ensures |e.data| < U32_LIMIT
      {
        var i :| 0 <= i < |es| && es[i] == e;
        assert raw[i] in raw && e.data == raw[i].data;
      }
    }
  }

  // ----- Signing -----

  function DigestsOf(ls: seq<LayerRef>): Bytes {
    if ls == [] then [] else DigestsOf(ls[..|ls| - 1]) + ls[|ls| - 1].digest
  }

  // What a signature covers: the header without a signature, and the digests.
  function Artifact(b: Bundle): Bytes {
    Encode(b.header.(signature := None)) + DigestsOf(b.header.layers)
  }

  method ArtifactBytes(b: Bundle) returns (data: Bytes)
    ensures data == Artifact(b)
  {
    hide Encode;
    var header := b.header.(signature := None);
    data := [];
    data := data + Encode(header);
    var ls := b.header.layers;
    for i := 0 to |ls|
      invariant data == Encode(header) + DigestsOf(ls[..i])
    {
      assert ls[..i + 1][..i] == ls[..i];
      Assoc(Encode(header), DigestsOf(ls[..i]), ls[i].digest);
      data := data + ls[i].digest;
    }
    assert ls[..|ls|] == ls;
  }

  // What is signed, read back: a header that parses to the bundle's without signature, and after it
  // the digests in order.
  lemma ArtifactParses(b: Bundle)
    ensures var h := Normal(b.header.(signature := None));
            var n := |Encode(h)|;
            && Parse(Artifact(b)) == Ok(Located(h, 0, n))
            && n <= |Artifact(b)| && Artifact(b)[n..] == Concat(Digests(b.header.layers))
  {
    hide Encode, Parse, FindMagic;
    var h := b.header.(signature := None);
    var ds := DigestsOf(b.header.layers);
    NothingHasNoMagic();
    ParseEncoded([], h, ds);
    assert [] + (Encode(h) + ds) == Artifact(b);
    NormalIsIdempotent(h);
    DigestsConcat(b.header.layers);
  }

  function Digests(ls: seq<LayerRef>): (r: seq<Bytes>)
    ensures |r| == |ls| && forall i :: 0 <= i < |ls| ==> r[i] == ls[i].digest
  {
    seq(|ls|, i requires 0 <= i < |ls| => ls[i].digest)
  }

  lemma {:induction false} DigestsConcat(ls: seq<LayerRef>)
    ensures DigestsOf(ls) == Concat(Digests(ls))
  {
    if ls != [] {
      DigestsConcat(ls[..|ls| - 1]);
      assert Digests(ls)[..|ls| - 1] == Digests(ls[..|ls| - 1]);
    }
  }

  // So two bundles are signed alike exactly when they have the same header up to the signature, to
  // the place it was read from, and to empty fields.
  lemma SignedAlikeIff(b: Bundle, b': Bundle)
    ensures Artifact(b) == Artifact(b') <==>
            SameFields(Normal(b.header.(signature := None)), Normal(b'.header.(signature := None)))
  {
    hide Encode, Parse, Concat, Normal;
    var h, h' := b.header.(signature := None), b'.header.(signature := None);
    ArtifactParses(b);
    ArtifactParses(b');
    NormalKeepsLayers(h);
    NormalKeepsLayers(h');
    if SameFields(Normal(h), Normal(h')) {
      EncodeIgnoresPlace(Normal(h), Normal(h'));
    }
  }

  lemma NormalKeepsLayers(h: BundleHeader)
    ensures Normal(h).layers == h.layers && Encode(Normal(h)) == Encode(h)
  {
    NormalIsIdempotent(h);
  }

  function ExtractAll(b: Bundle, n: nat): Result<Bytes, Error>
    requires n <= |b.header.layers|
  {
    if n == 0 then Ok([])
    else
      var before :- ExtractAll(b, n - 1);
      var layer :- b.LayerAt(n - 1);
      Ok(before + layer)
  }

  function SignedHeader(h: BundleHeader, signature: Bytes): BundleHeader { h.(signature := Some(signature)) }

  // The rewritten file: the stub, the header with the signature, the layers.  A bundle that
  // has a signature is left alone.
  function SignedFile(data: Bytes, signature: Bytes): Result<Option<Bytes>, Error> {
    var b :- ParseBundle(data);
    if b.header.signature.Some? then Ok(None)
    else
      var layers :- ExtractAll(b, |b.header.layers|);
      if b.header.offset > |data| then Err(SlicePanic)
      else Ok(Some(data[..b.header.offset] + (Encode(SignedHeader(b.header, signature)) + layers)))
  }

  method SignBundle(data: Bytes, signature: Bytes) returns (r: Result<Option<Bytes>, Error>)
    ensures r == SignedFile(data, signature)
  {
    hide Encode, Parse, Bundle.LayerAt;
    var parsed := ParseBundle(data);
    if parsed.Err? {
      return Err(parsed.error);
    }
    var b := parsed.value;
    if b.header.signature.Some? {
      return Ok(None);
    }
    var header := b.header.(signature := Some(signature), bootstrapSize := b.header.bootstrapSize);
    var headerBytes := Encode(header);
    ParsedIsNormal(data);
    var stub := data[..b.header.offset];
    var out := stub;
    out := out + headerBytes;
    ghost var written := [];
    for i := 0 to |b.header.layers|
      invariant ExtractAll(b, i) == Ok(written)
      invariant out == stub + headerBytes + written
    {
      var layer := b.ExtractLayer(i);
      if layer.Err? {
        ExtractAllStops(b, i, |b.header.layers|);
        return Err(layer.error);
      }
      Assoc(stub + headerBytes, written, layer.value);
      out := out + layer.value;
      written := written + layer.value;
    }
    Assoc(stub, headerBytes, written);
    return Ok(Some(out));
  }

  lemma {:induction false} ExtractAllStops(b: Bundle, i: nat, n: nat)
    requires i < n <= |b.header.layers| && ExtractAll(b, i).Ok? && b.LayerAt(i).Err?
    ensures ExtractAll(b, n) == Err(b.LayerAt(i).error)
    decreases n
  {
    hide Bundle.LayerAt;
    if i < n - 1 {
      ExtractAllStops(b, i, n - 1);
    }
  }

  // A bundle is signed exactly when it parses, has no signature yet, and all of its layers extract;
  // it is left alone exactly when it has one.
  lemma SignsIff(data: Bytes, signature: Bytes)
    ensures SignedFile(data, signature) == Ok(None) <==>
            ParseBundle(data).Ok? && ParseBundle(data).value.header.signature.Some?
    ensures SignedFile(data, signature).Ok? && SignedFile(data, signature).value.Some? <==>
            && ParseBundle(data).Ok? && ParseBundle(data).value.header.signature == None
            && AllExtract(ParseBundle(data).value)
    ensures ParseBundle(data).Err? ==> SignedFile(data, signature) == Err(ParseBundle(data).error)
  {
    hide Encode, Parse, Bundle.LayerAt;
    if ParseBundle(data).Ok? {
      var b := ParseBundle(data).value;
      ParsedIsNormal(data);
      ExtractAllIsConcat(b, |b.header.layers|);
    }
  }

  // And when a layer does not extract, the error is that of the first one.
  lemma SigningFailsAtFirst(data: Bytes, signature: Bytes, i: nat)
    requires ParseBundle(data).Ok? && ParseBundle(data).value.header.signature == None
    requires var b := ParseBundle(data).value;
             i < |b.header.layers| && b.LayerAt(i).Err? && forall j | 0 <= j < i :: b.LayerAt(j).Ok?
    ensures SignedFile(data, signature) == Err(ParseBundle(data).value.LayerAt(i).error)
  {
    hide Encode, Parse, Bundle.LayerAt;
    var b := ParseBundle(data).value;
    ExtractAllIsConcat(b, i);
    ExtractAllStops(b, i, |b.header.layers|);
  }

  function Extracted(b: Bundle): (images: seq<Bytes>)
    requires AllExtract(b)
    ensures |images| == |b.header.layers|
    ensures forall i :: 0 <= i < |images| ==> b.LayerAt(i) == Ok(images[i])
  {
    seq(|b.header.layers|, i requires 0 <= i < |b.header.layers| => b.LayerAt(i).value)
  }

  lemma {:induction false} ExtractAllIsConcat(b: Bundle, n: nat)
    requires n <= |b.header.layers|
    ensures ExtractAll(b, n).Ok? <==> forall i | 0 <= i < n :: b.LayerAt(i).Ok?
    ensures AllExtract(b) ==> ExtractAll(b, n) == Ok(Concat(Extracted(b)[..n]))
  {
    hide Bundle.LayerAt;
    if n > 0 {
      ExtractAllIsConcat(b, n - 1);
      if AllExtract(b) {
        var images := Extracted(b);
        assert images[..n][..n - 1] == images[..n - 1];
      }
    }
  }

  // A rewritten file with the same layers after another header gives the same layers.
  lemma SameLayers(b: Bundle, b': Bundle, pre: Bytes)
    requires AllExtract(b) && b.LayersOffset() <= |b.data| < LENGTH_LIMIT
    requires b'.header.layers == b.header.layers && b'.LayersOffset() == |pre|
    requires b'.data == pre + Concat(Extracted(b)) && |b'.data| < LENGTH_LIMIT
    ensures forall i | 0 <= i < |b.header.layers| :: b'.LayerAt(i) == b.LayerAt(i)
    ensures b'.LayersEndSpec() == |b'.data|
  {
    hide Concat, SumSizes, Wrap;
    var images := Extracted(b);
    ExtractedInOrder(b, |b.header.layers|);
    forall i | 0 <= i < |images|
      ensures b.header.layers[i].size == |images[i]|
    {
      assert b.LayerAt(i) == IdealLayer(b, i);
    }
    assert Concat(images) + [] == Concat(images);
    LayoutExtracts(b', pre, images, []);
  }

  // Signing keeps what is signed: the same artifact bytes, the same stub and the same layers,
  // and every other header field, whatever the signature is.
  lemma SigningPreserves(data: Bytes, signature: Bytes) returns (b: Bundle, b': Bundle)
    requires |data| < LENGTH_LIMIT && SignedFile(data, signature).Ok? && SignedFile(data, signature).value.Some?
    requires |SignedFile(data, signature).value.value| < LENGTH_LIMIT
    ensures ParseBundle(data) == Ok(b) && ParseBundle(SignedFile(data, signature).value.value) == Ok(b')
    ensures b.header.signature == None
    ensures SameFields(b'.header, b.header.(signature := NonEmpty(signature)))
    ensures b'.header.offset == b.header.offset && b'.header.offset <= |b'.data|
    ensures b.header.offset <= |b.data| && b'.data[..b'.header.offset] == b.data[..b.header.offset]
    ensures forall i | 0 <= i < |b.header.layers| :: b'.LayerAt(i) == b.LayerAt(i)
    ensures Artifact(b') == Artifact(b)
    ensures b'.LayersEndSpec() == |b'.data|
    ensures b'.BootstrapSlice() in [Ok(None), Err(SlicePanic)]
  {
    hide Encode, Parse, FindMagic, Concat, Bundle.LayerAt;
    b := ParseBundle(data).value;
    var h := SignedHeader(b.header, signature);
    ParsedIsNormal(data);
    ExtractAllIsConcat(b, |b.header.layers|);
    var images := Extracted(b);
    assert images[..|images|] == images;
    var stub, e := data[..b.header.offset], Encode(h);
    ParseEncoded(stub, h, Concat(images));
    var out := stub + (e + Concat(images));
    assert SignedFile(data, signature) == Ok(Some(out));
    b' := Bundle(Located(Normal(h), |stub|, |e|), out);
    Assoc(stub, e, Concat(images));
    SameLayers(b, b', stub + e);
    assert out[..|stub|] == stub;
    EncodeIgnoresPlace(b.header.(signature := None), b'.header.(signature := None));
    NoRoomForBootstrap(b');
  }

  // A header that still declares a bootstrap section when the file ends with its layers: there
  // is no section to read.
  lemma NoRoomForBootstrap(b: Bundle)
    requires b.LayersEndSpec() == |b.data| < LENGTH_LIMIT
    ensures b.BootstrapSlice() in [Ok(None), Err(SlicePanic)]
  {
    hide Bundle.LayersEndSpec;
    if b.header.bootstrapSize.Some? {
      WrapBelow(|b.data| + b.header.bootstrapSize.value);
      WrapOver(|b.data|, b.header.bootstrapSize.value);
    }
  }
}
