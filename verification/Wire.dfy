/**
 A concrete, self-delimiting wire form for the header record of `nexpack-ipc/src/header.capnp`.

 It stands in for the Cap'n Proto library: a record is a list of byte-string fields, a list is a
 count followed by its members, and a byte string is a length followed by its bytes.  Everything
 else uses only the three facts at the end: a written record is read back whatever follows it,
 and what follows is what is left; and no proper prefix of a written record is read.
 */
module Wire {
  import opened ByteCodec
  import opened Permission

  datatype LayerRef = LayerRef(digest: Bytes, size: u64, role: Bytes)

  datatype Record = Record(
    version: u32,
    appId: Bytes,
    appVersion: Bytes,
    entrypoint: Bytes,
    layers: seq<LayerRef>,
    permissions: PermissionSet,
    signature: Bytes,
    sbom: Bytes,
    updateUrl: Bytes,
    bootstrapSize: u64)

  // ----- Numbers, byte strings and lists of byte strings -----

  function PutNat(n: nat, tail: Bytes): (b: Bytes)
    ensures b != []
  {
    if n < 255 then [n] + tail else [255] + PutNat(n - 255, tail)
  }

  function GetNat(b: Bytes): Option<(nat, Bytes)> {
    if b == [] then None
    else if b[0] < 255 then Some((b[0], b[1..]))
    else
      match GetNat(b[1..])
      case None => None
      case Some((n, rest)) => Some((n + 255, rest))
  }

  lemma {:induction false} NatRoundTrip(n: nat, tail: Bytes)
    ensures GetNat(PutNat(n, tail)) == Some((n, tail))
  {
    if n >= 255 {
      NatRoundTrip(n - 255, tail);
    }
  }

  lemma {:induction false} NatExtends(b: Bytes, more: Bytes)
    requires GetNat(b).Some?
    ensures GetNat(b + more) == Some((GetNat(b).value.0, GetNat(b).value.1 + more))
  {
    assert (b + more)[1..] == b[1..] + more;
    if b[0] == 255 {
      NatExtends(b[1..], more);
    }
  }

  function PutBlob(x: Bytes, tail: Bytes): Bytes { PutNat(|x|, x + tail) }

  function GetBlob(b: Bytes): Option<(Bytes, Bytes)> {
    match GetNat(b)
    case None => None
    case Some((n, rest)) => if |rest| < n then None else Some((rest[..n], rest[n..]))
  }

  lemma BlobRoundTrip(x: Bytes, tail: Bytes)
    ensures GetBlob(PutBlob(x, tail)) == Some((x, tail))
  {
    NatRoundTrip(|x|, x + tail);
  }

  lemma BlobExtends(b: Bytes, more: Bytes)
    requires GetBlob(b).Some?
    ensures GetBlob(b + more) == Some((GetBlob(b).value.0, GetBlob(b).value.1 + more))
  {
    hide GetNat;
    NatExtends(b, more);
    var (n, rest) := GetNat(b).value;
    assert (rest + more)[..n] == rest[..n] && (rest + more)[n..] == rest[n..] + more;
  }

  function PutEach(xs: seq<Bytes>, tail: Bytes): Bytes
    decreases xs
  {
    if xs == [] then tail else PutBlob(xs[0], PutEach(xs[1..], tail))
  }

  function GetEach(n: nat, b: Bytes): (r: Option<(seq<Bytes>, Bytes)>)
    ensures r.Some? ==> |r.value.0| == n
  {
    if n == 0 then Some(([], b))
    else
      match GetBlob(b)
      case None => None
      case Some((x, rest)) =>
        match GetEach(n - 1, rest)
        case None => None
        case Some((xs, end)) => Some(([x] + xs, end))
  }

  lemma {:induction false} EachRoundTrip(xs: seq<Bytes>, tail: Bytes)
    ensures GetEach(|xs|, PutEach(xs, tail)) == Some((xs, tail))
    decreases xs
  {
    hide GetBlob, PutBlob;
    if xs != [] {
      BlobRoundTrip(xs[0], PutEach(xs[1..], tail));
      EachRoundTrip(xs[1..], tail);
      assert xs == [xs[0]] + xs[1..];
    }
  }

  lemma {:induction false} EachExtends(n: nat, b: Bytes, more: Bytes)
    requires GetEach(n, b).Some?
    ensures GetEach(n, b + more) == Some((GetEach(n, b).value.0, GetEach(n, b).value.1 + more))
  {
    hide GetBlob;
    if n > 0 {
      BlobExtends(b, more);
      EachExtends(n - 1, GetBlob(b).value.1, more);
    }
  }

  function PutList(xs: seq<Bytes>, tail: Bytes): Bytes { PutNat(|xs|, PutEach(xs, tail)) }

  function GetList(b: Bytes): Option<(seq<Bytes>, Bytes)> {
    match GetNat(b)
    case None => None
    case Some((n, rest)) => GetEach(n, rest)
  }

  lemma ListRoundTrip(xs: seq<Bytes>, tail: Bytes)
    ensures GetList(PutList(xs, tail)) == Some((xs, tail))
  {
    hide GetEach, PutEach;
    NatRoundTrip(|xs|, PutEach(xs, tail));
    EachRoundTrip(xs, tail);
  }

  lemma ListExtends(b: Bytes, more: Bytes)
    requires GetList(b).Some?
    ensures GetList(b + more) == Some((GetList(b).value.0, GetList(b).value.1 + more))
  {
    hide GetEach, GetNat;
    NatExtends(b, more);
    EachExtends(GetNat(b).value.0, GetNat(b).value.1, more);
  }

  // ----- Fields of the record -----

  function LayerFields(ls: seq<LayerRef>): (f: seq<Bytes>)
    ensures |f| == 3 * |ls|
  {
    if ls == [] then [] else [ls[0].digest, Little(8, ls[0].size), ls[0].role] + LayerFields(ls[1..])
  }

  function ReadLayers(f: seq<Bytes>): Option<seq<LayerRef>> {
    if f == [] then Some([])
    else if |f| < 3 || FromLittle(f[1]) >= U64_LIMIT then None
    else
      match ReadLayers(f[3..])
      case None => None
      case Some(ls) => Some([LayerRef(f[0], FromLittle(f[1]), f[2])] + ls)
  }

  lemma {:induction false} LayersRoundTrip(ls: seq<LayerRef>)
    ensures ReadLayers(LayerFields(ls)) == Some(ls)
  {
    hide Pow256, Little, FromLittle;
    if ls != [] {
      Pow256Values();
      LittleInverts(8, ls[0].size);
      LayersRoundTrip(ls[1..]);
      assert LayerFields(ls)[3..] == LayerFields(ls[1..]);
      assert ls == [ls[0]] + ls[1..];
    }
  }

  // A count is written as a field of that many zeros.
  function Count(n: nat): (f: Bytes)
    ensures |f| == n
  {
    seq(n, _ => 0)
  }

  function NetworkTag(n: PermissionValue): Bytes {
    match n
    case Allowed(b) => [if b then 1 else 0]
    case Patterns(_) => []
  }

  function NetworkPatterns(n: PermissionValue): seq<Bytes> { if n.Patterns? then n.patterns else [] }

  const SCALARS: nat := 15

  function Scalars(r: Record): (f: seq<Bytes>)
    ensures |f| == SCALARS
  {
    var p := r.permissions;
    [ Little(4, r.version), r.appId, r.appVersion, r.entrypoint, p.display, r.signature, r.sbom, r.updateUrl,
      Little(8, r.bootstrapSize), NetworkTag(p.network), Count(3 * |r.layers|), Count(|NetworkPatterns(p.network)|),
      Count(|p.filesystem|), Count(|p.devices|), Count(|p.ipc|) ]
  }

  function Lists(r: Record): seq<Bytes> {
    var p := r.permissions;
    LayerFields(r.layers) + (NetworkPatterns(p.network) + (p.filesystem + (p.devices + p.ipc)))
  }

  function Fields(r: Record): seq<Bytes> { Scalars(r) + Lists(r) }

  function ReadFields(f: seq<Bytes>): Option<Record> {
    if |f| < SCALARS || |f| != SCALARS + |f[10]| + |f[11]| + |f[12]| + |f[13]| + |f[14]| then None
    else if FromLittle(f[0]) >= U32_LIMIT || FromLittle(f[8]) >= U64_LIMIT then None
    else
      var lists := f[SCALARS..];
      var afterLayers := lists[|f[10]|..];
      var afterPatterns := afterLayers[|f[11]|..];
      var afterFilesystem := afterPatterns[|f[12]|..];
      match ReadLayers(lists[..|f[10]|])
      case None => None
      case Some(layers) =>
        var network := if f[9] == [] then Patterns(afterLayers[..|f[11]|]) else Allowed(f[9] == [1]);
        var permissions := PermissionSet(network, afterPatterns[..|f[12]|], afterFilesystem[..|f[13]|],
                                         afterFilesystem[|f[13]|..], f[4]);
        Some(Record(FromLittle(f[0]), f[1], f[2], f[3], layers, permissions, f[5], f[6], f[7], FromLittle(f[8])))
  }

  lemma Cut(a: seq<Bytes>, b: seq<Bytes>)
    ensures (a + b)[..|a|] == a && (a + b)[|a|..] == b
  {
  }

  lemma ScalarsInFront(r: Record)
    ensures forall i :: 0 <= i < SCALARS ==> Fields(r)[i] == Scalars(r)[i]
    ensures Fields(r)[SCALARS..] == Lists(r)
  {
    hide Scalars, Lists;
    Cut(Scalars(r), Lists(r));
  }

  lemma NetworkRoundTrip(n: PermissionValue)
    ensures n == if NetworkTag(n) == [] then Patterns(NetworkPatterns(n)) else Allowed(NetworkTag(n) == [1])
  {
  }

  lemma FieldsRoundTrip(r: Record)
    ensures ReadFields(Fields(r)) == Some(r)
  {
    hide Pow256, Little, FromLittle, LayerFields, ReadLayers, Count, Fields, NetworkTag, NetworkPatterns;
    Pow256Values();
    LittleInverts(4, r.version);
    LittleInverts(8, r.bootstrapSize);
    LayersRoundTrip(r.layers);
    var p := r.permissions;
    ScalarsInFront(r);
    FieldCount(r);
    Cut(LayerFields(r.layers), NetworkPatterns(p.network) + (p.filesystem + (p.devices + p.ipc)));
    Cut(NetworkPatterns(p.network), p.filesystem + (p.devices + p.ipc));
    Cut(p.filesystem, p.devices + p.ipc);
    Cut(p.devices, p.ipc);
    NetworkRoundTrip(p.network);
  }

  lemma FieldCount(r: Record)
    ensures var p := r.permissions;
            |Fields(r)| == SCALARS + 3 * |r.layers| + |NetworkPatterns(p.network)|
                           + |p.filesystem| + |p.devices| + |p.ipc|
  {
  }

  // ----- The record -----

  function Write(r: Record): Bytes { PutList(Fields(r), []) }

  // The record at the start of `b` and the bytes after it.
  function Read(b: Bytes): (r: Option<(Record, Bytes)>) {
    match GetList(b)
    case None => None
    case Some((fields, rest)) =>
      match ReadFields(fields)
      case None => None
      case Some(record) => Some((record, rest))
  }

  lemma ReadsWhatWasWritten(r: Record, rest: Bytes)
    ensures Read(Write(r) + rest) == Some((r, rest))
  {
    hide GetList, PutList, Fields, ReadFields;
    ListRoundTrip(Fields(r), []);
    ListExtends(Write(r), rest);
    FieldsRoundTrip(r);
    assert [] + rest == rest;
  }

  lemma ReadsOnlyWhole(r: Record, cut: nat)
    requires cut < |Write(r)|
    ensures Read(Write(r)[..cut]) == None
  {
    hide GetList, PutList, Fields, ReadFields;
    var part, more := Write(r)[..cut], Write(r)[cut..];
    ListRoundTrip(Fields(r), []);
    assert Write(r) == part + more;
    if GetList(part).Some? {
      ListExtends(part, more);
      assert false;
    }
  }

  lemma {:induction false} NatLeavesSuffix(b: Bytes)
    requires GetNat(b).Some?
    ensures |GetNat(b).value.1| <= |b| && GetNat(b).value.1 == b[|b| - |GetNat(b).value.1|..]
  {
    if b[0] == 255 {
      NatLeavesSuffix(b[1..]);
    }
  }

  lemma {:induction false} EachLeavesSuffix(n: nat, b: Bytes)
    requires GetEach(n, b).Some?
    ensures |GetEach(n, b).value.1| <= |b| && GetEach(n, b).value.1 == b[|b| - |GetEach(n, b).value.1|..]
  {
    hide GetNat;
    if n > 0 {
      NatLeavesSuffix(b);
      EachLeavesSuffix(n - 1, GetBlob(b).value.1);
    }
  }

  lemma ReadLeavesSuffix(b: Bytes)
    requires Read(b).Some?
    ensures |Read(b).value.1| <= |b| && Read(b).value.1 == b[|b| - |Read(b).value.1|..]
  {
    hide GetNat, GetEach, ReadFields;
    NatLeavesSuffix(b);
    EachLeavesSuffix(GetNat(b).value.0, GetNat(b).value.1);
  }
}
