/**
 From `nxpk pack` to the first run: what the stub of a packed bundle extracts
 (`nxpk/src/commands/pack.rs`, `stub/stub.c`).
 */
module SelfExtract {
  import opened ByteCodec
  import opened Header
  import opened BundleFile
  import opened Packing
  import Bootstrap
  import Stub
  import StubAgreement

  // The files with a binary, if there is one.
  function WithBinary(files: map<Bytes, Bytes>, path: Bytes, data: Option<Bytes>): map<Bytes, Bytes> {
    if data.Some? then files[path := data.value] else files
  }

  // A binary that is there fits its length field and can be written.
  predicate Extractable(data: Option<Bytes>, path: Bytes, openable: Bytes -> bool) {
    data.Some? ==> |data.value| < U32_LIMIT && openable(path)
  }

  // Running the stub of a packed bundle puts exactly the embedded binaries, one or both, into the
  // bin directory, under their names.
  lemma PackedBundleExtracts(stub: Bytes, app: AppSpec, sources: seq<LayerSource>, sbom: Bytes, boot: BootstrapSpec,
                             hash: HashFn, seekLimit: nat, dir: Bytes, files: map<Bytes, Bytes>,
                             openable: Bytes -> bool)
    requires boot.nexpackd.Some? || boot.nxpk.Some?
    requires |PackedFile(stub, app, sources, sbom, Some(boot), hash)| < LENGTH_LIMIT
    requires |PackedFile(stub, app, sources, sbom, Some(boot), hash)| <= seekLimit
    requires |dir| <= 255
    requires Extractable(boot.nexpackd, dir + Ascii("/nexpackd"), openable)
    requires Extractable(boot.nxpk, dir + Ascii("/nxpk"), openable)
    ensures Stub.ExtractBundle(PackedFile(stub, app, sources, sbom, Some(boot), hash), seekLimit, dir, files, openable)
         == Stub.Extraction(true, WithBinary(WithBinary(files, dir + Ascii("/nexpackd"), boot.nexpackd),
                                             dir + Ascii("/nxpk"), boot.nxpk))
  {
    hide PackedFile, Bootstrap.BootstrapData, Bootstrap.ReadTrailer, Stub.ExtractBundle,
      Bootstrap.ReadSection, Stub.EntryPath, StubAgreement.WriteEntries, WithBinary;
    var file := PackedFile(stub, app, sources, sbom, Some(boot), hash);
    var es := EmbeddedEntries(Some(boot));
    var data := Bootstrap.BootstrapData(es);
    var at := PackedSlice(stub, app, sources, sbom, Some(boot), hash);
    Bootstrap.AcceptsExactlyEncodings(data, es, []);
    assert data + [] == data;
    var same := (x: Bytes) => x;
    PathsAre(dir);
    StubAgreement.PathFits(dir, NEXPACKD);
    StubAgreement.PathFits(dir, NXPK);
    StubAgreement.StubAgreesWithParser(same, file, at, |data|, seekLimit, dir, files, openable);
    Bootstrap.ParserRoundTrip(same, es, []);
    WritesBinaries(files, dir, boot);
  }

  lemma PathsAre(dir: Bytes)
    ensures dir + [SLASH] + NEXPACKD == dir + Ascii("/nexpackd") && dir + [SLASH] + NXPK == dir + Ascii("/nxpk")
  {
    assert [SLASH] + NEXPACKD == Ascii("/nexpackd") && [SLASH] + NXPK == Ascii("/nxpk");
    Assoc(dir, [SLASH], NEXPACKD);
    Assoc(dir, [SLASH], NXPK);
  }

  // Where the section lies in the file.
  lemma PackedSlice(stub: Bytes, app: AppSpec, sources: seq<LayerSource>, sbom: Bytes, boot: Option<BootstrapSpec>,
                    hash: HashFn) returns (at: nat)
    requires EmbeddedEntries(boot) != []
    requires |PackedFile(stub, app, sources, sbom, boot, hash)| < LENGTH_LIMIT
    ensures var file := PackedFile(stub, app, sources, sbom, boot, hash);
            var data := Bootstrap.BootstrapData(EmbeddedEntries(boot));
            && at + |data| <= |file| && file[at..at + |data|] == data
            && Bootstrap.ReadTrailer(file) == Some((at, |data|))
  {
    hide Encode, Concat, PackedTail, Bootstrap.BootstrapData, Bootstrap.ReadTrailer;
    var body := stub + Encode(PackedHeader(app, sources, sbom, boot, hash)) + Concat(Images(sources));
    TailPointsBack(body, EmbeddedEntries(boot));
    at := |body|;
  }

  lemma WritesBinaries(files: map<Bytes, Bytes>, dir: Bytes, boot: BootstrapSpec)
    ensures StubAgreement.WriteEntries(files, dir, EmbeddedEntries(Some(boot)))
         == WithBinary(WithBinary(files, Stub.EntryPath(dir, NEXPACKD), boot.nexpackd),
                       Stub.EntryPath(dir, NXPK), boot.nxpk)
  {
    hide Stub.EntryPath;
    var es := EmbeddedEntries(Some(boot));
    if |es| == 2 {
      assert es[1..][1..] == [];
      WritesFirst(files, dir, es);
      WritesFirst(files[Stub.EntryPath(dir, NEXPACKD) := boot.nexpackd.value], dir, es[1..]);
    } else if |es| == 1 {
      assert es[1..] == [];
      WritesFirst(files, dir, es);
    }
  }

  lemma WritesFirst(files: map<Bytes, Bytes>, dir: Bytes, es: seq<Bootstrap.Entry>)
    requires es != []
    ensures StubAgreement.WriteEntries(files, dir, es)
         == StubAgreement.WriteEntries(files[Stub.EntryPath(dir, es[0].name) := es[0].data], dir, es[1..])
    ensures StubAgreement.WriteEntries(files, dir, []) == files
  {
  }
}
