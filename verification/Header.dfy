/** The bundle header (`nexpack-core/src/header.rs`). */
module Header {
  import opened ByteCodec
  import opened Permission
  import opened Wire

  datatype Error =
    | NoMagic
    | BadRecord
    | IndexOutOfRange(index: nat, max: nat)
    | LayerExceedsBounds(index: nat)
    | NoBootstrapData
    | BadBootstrapData
    | DigestMismatch(expected: Bytes, actual: Bytes)
    | SlicePanic
    | NoLayers
    | NotInstalled
    | LayerNotFound

  datatype BundleHeader = BundleHeader(
    version: u32,
    appId: Bytes,
    appVersion: Bytes,
    entrypoint: Bytes,
    layers: seq<LayerRef>,
    permissions: PermissionSet,
    signature: Option<Bytes>,
    sbom: Option<Bytes>,
    updateUrl: Option<Bytes>,
    bootstrapSize: Option<u64>,
    offset: nat,
    encodedLen: nat)

  const MAGIC: Bytes := [0x4E, 0x58, 0x30, 0x32] // "NX02"

  // The position of the first window equal to the magic.
  function FindMagic(data: Bytes): Option<nat> {
    if |data| < 4 then None
    else if data[..4] == MAGIC then Some(0)
    else
      match FindMagic(data[1..])
      case None => None
      case Some(k) => Some(k + 1)
  }

  function OrEmpty(x: Option<Bytes>): Bytes { if x.Some? then x.value else [] }
  function NonEmpty(x: Bytes): Option<Bytes> { if x == [] then None else Some(x) }

  function ToRecord(h: BundleHeader): Record {
    Record(h.version, h.appId, h.appVersion, h.entrypoint, h.layers, h.permissions,
           OrEmpty(h.signature), OrEmpty(h.sbom), OrEmpty(h.updateUrl),
           if h.bootstrapSize.Some? then h.bootstrapSize.value else 0)
  }

  function FromRecord(r: Record, offset: nat, encodedLen: nat): BundleHeader {
    BundleHeader(r.version, r.appId, r.appVersion, r.entrypoint, r.layers, r.permissions,
                 NonEmpty(r.signature), NonEmpty(r.sbom), NonEmpty(r.updateUrl),
                 if r.bootstrapSize == 0 then None else Some(r.bootstrapSize), offset, encodedLen)
  }

  function Parse(data: Bytes): Result<BundleHeader, Error> {
    match FindMagic(data)
    case None => Err(NoMagic)
    case Some(pos) =>
      MagicAt(data);
      match Read(data[pos + 4..])
      case None => Err(BadRecord)
      case Some((record, rest)) =>
        ReadLeavesSuffix(data[pos + 4..]);
        Ok(FromRecord(record, pos, 4 + (|data| - (pos + 4) - |rest|)))
  }

  function Encode(h: BundleHeader): (b: Bytes) { MAGIC + Write(ToRecord(h)) }

  // ----- The magic search -----

  predicate HasMagicAt(data: Bytes, j: nat) {
    j + 4 <= |data| && data[j..j + 4] == Ascii("NX02")
  }

  lemma MagicIs()
    ensures MAGIC == Ascii("NX02")
  {
  }

  // The search finds the first occurrence, and nothing only when there is none.
  lemma {:induction false} MagicAt(data: Bytes)
    ensures match FindMagic(data)
            case Some(k) => HasMagicAt(data, k) && forall j | 0 <= j < k :: !HasMagicAt(data, j)
            case None => forall j: nat :: !HasMagicAt(data, j)
  {
    MagicIs();
    if |data| >= 4 && data[..4] != MAGIC {
      MagicAt(data[1..]);
      assert !HasMagicAt(data, 0);
      forall j | j > 0
        ensures HasMagicAt(data, j) == HasMagicAt(data[1..], j - 1)
      {
        if j + 4 <= |data| {
          assert data[j..j + 4] == data[1..][j - 1..j + 3];
        }
      }
    }
  }

  // The magic does not overlap itself, so the header is found right after whatever precedes it
  // exactly when the magic does not occur there already.
  lemma {:induction false} MagicAfter(stub: Bytes, rest: Bytes)
    ensures FindMagic(stub + (MAGIC + rest)) == Some(|stub|) <==> FindMagic(stub) == None
  {
    var data := stub + (MAGIC + rest);
    if stub == [] {
      assert data[..4] == MAGIC;
    } else {
      assert data[1..] == stub[1..] + (MAGIC + rest);
      MagicAfter(stub[1..], rest);
      if |stub| >= 4 {
        assert data[..4] == stub[..4];
      } else {
        NoOverlap(stub, rest);
        ShortHasNoMagic(stub[1..]);
      }
    }
  }

  lemma ShortHasNoMagic(s: Bytes)
    requires |s| < 4
    ensures FindMagic(s) == None
  {
  }

  lemma NothingHasNoMagic()
    ensures FindMagic([]) == None
  {
  }

  lemma NoOverlap(s: Bytes, rest: Bytes)
    requires 0 < |s| < 4
    ensures (s + (MAGIC + rest))[..4] != MAGIC
  {
    var w := (s + (MAGIC + rest))[..4];
    assert w[|s|] == MAGIC[0];
  }

  // There are two ways not to parse: no window of the data is the magic, or what follows the first
  // such window is no record.
  lemma ParseErrorIff(data: Bytes)
    ensures Parse(data) == Err(NoMagic) <==> forall j: nat :: !HasMagicAt(data, j)
    ensures Parse(data) == Err(BadRecord) <==>
            exists j: nat :: HasMagicAt(data, j) && (forall i | 0 <= i < j :: !HasMagicAt(data, i))
                             && Read(data[j + 4..]) == None
    ensures Parse(data).Err? ==> Parse(data).error in [NoMagic, BadRecord]
  {
    hide FindMagic, Read, FromRecord;
    MagicAt(data);
    if FindMagic(data).Some? {
      var k := FindMagic(data).value;
      assert HasMagicAt(data, k);
      forall j: nat | HasMagicAt(data, j) && forall i | 0 <= i < j :: !HasMagicAt(data, i)
        ensures j == k
      {
      }
    }
  }

  // What precedes the magic that was found has none.
  lemma {:induction false} MagicPrefix(data: Bytes, k: nat)
    requires FindMagic(data) == Some(k)
    ensures k <= |data| && FindMagic(data[..k]) == None
  {
    if k > 0 {
      MagicPrefix(data[1..], k - 1);
      assert data[..k][1..] == data[1..][..k - 1];
      if k >= 4 {
        assert data[..k][..4] == data[..4];
      }
    }
  }

  // ----- Normalisation -----

  // What encoding and parsing make of a header: an empty signature, SBOM or URL and a zero
  // bootstrap size become absent.
  function Normal(h: BundleHeader): BundleHeader {
    h.(signature := NonEmpty(OrEmpty(h.signature)), sbom := NonEmpty(OrEmpty(h.sbom)),
       updateUrl := NonEmpty(OrEmpty(h.updateUrl)),
       bootstrapSize := if h.bootstrapSize == Some(0) then None else h.bootstrapSize)
  }

  function Located(h: BundleHeader, offset: nat, encodedLen: nat): BundleHeader {
    h.(offset := offset, encodedLen := encodedLen)
  }

  predicate SameFields(h: BundleHeader, h': BundleHeader) { Located(h, 0, 0) == Located(h', 0, 0) }

  // Parsing inverts encoding, up to normalisation, after anything without the magic and before
  // anything at all.
  lemma ParseEncoded(stub: Bytes, h: BundleHeader, rest: Bytes)
    requires FindMagic(stub) == None
    ensures Parse(stub + (Encode(h) + rest)) == Ok(Located(Normal(h), |stub|, |Encode(h)|))
  {
    hide FindMagic, Write, Read;
    var w := Write(ToRecord(h));
    Assoc(MAGIC, w, rest);
    MagicAfter(stub, w + rest);
    var data := stub + (MAGIC + (w + rest));
    assert data[|stub| + 4..] == w + rest;
    ReadsWhatWasWritten(ToRecord(h), rest);
  }

  // A header cut short anywhere is not parsed.
  lemma ParsesOnlyWhole(h: BundleHeader, cut: nat)
    requires cut < |Encode(h)|
    ensures Parse(Encode(h)[..cut]).Err?
  {
    hide Write, Read;
    var w := Write(ToRecord(h));
    var part := Encode(h)[..cut];
    if cut >= 4 {
      assert part[..4] == MAGIC;
      assert part[4..] == w[..cut - 4];
      ReadsOnlyWhole(ToRecord(h), cut - 4);
    }
  }

  lemma NormalIsIdempotent(h: BundleHeader)
    ensures Normal(Normal(h)) == Normal(h) && Encode(Normal(h)) == Encode(h)
    ensures SameFields(Normal(h), Normal(Normal(h)))
  {
  }

  lemma ParsedIsNormal(data: Bytes)
    requires Parse(data).Ok?
    ensures var h := Parse(data).value;
            Normal(h) == h && h.offset + h.encodedLen <= |data| && FindMagic(data[..h.offset]) == None
  {
    hide FindMagic, Read;
    MagicAt(data);
    MagicPrefix(data, FindMagic(data).value);
    ReadLeavesSuffix(data[FindMagic(data).value + 4..]);
  }

  // Where a header was found is not part of what is encoded.
  lemma EncodeIgnoresPlace(h: BundleHeader, h': BundleHeader)
    requires SameFields(h, h')
    ensures Encode(h) == Encode(h')
  {
    assert ToRecord(h) == ToRecord(Located(h, 0, 0)) && ToRecord(h') == ToRecord(Located(h', 0, 0));
  }
}
