/**
 A bundle file: where its layers and its bootstrap section lie, and the layer check
 (`nexpack-core/src/lib.rs`, `nexpack-core/src/verify.rs`, `nexpack-core/src/layer.rs`).

 `usize` and `u64` sums wrap, as they do in a release build; a slice whose end wrapped below its
 start is a panic.
 */
module BundleFile {
  import opened ByteCodec
  import opened Wire
  import opened Header
  import Bootstrap

  // A BLAKE3 digest in lower-case hexadecimal.
  type Hex = s: Bytes | |s| == 64 && forall c :: c in s ==> 0x30 <= c <= 0x39 || 0x61 <= c <= 0x66
    witness seq(64, _ => 0x30)
  type HashFn = Bytes -> Hex

  const DIGEST_PREFIX: Bytes := [0x62, 0x6C, 0x61, 0x6B, 0x65, 0x33, 0x3A] // "blake3:"

  function StripPrefix(digest: Bytes): Bytes {
    if DIGEST_PREFIX <= digest then digest[|DIGEST_PREFIX|..] else digest
  }

  function DigestHex(l: LayerRef): Bytes { StripPrefix(l.digest) }

  function SumSizes(ls: seq<LayerRef>): nat {
    if ls == [] then 0 else SumSizes(ls[..|ls| - 1]) + ls[|ls| - 1].size
  }

  function Wrap(n: nat): nat { n % U64_LIMIT }

  lemma WrapAdds(a: nat, b: nat)
    ensures Wrap(Wrap(a) + b) == Wrap(a + b)
  {
  }

  datatype Bundle = Bundle(header: BundleHeader, data: Bytes) {

    function LayersOffset(): nat { header.offset + header.encodedLen }

    // Where layer `i` starts and where all of them end, before and after wrapping.
    function LayerStart(i: nat): nat
      requires i <= |header.layers|
    {
      LayersOffset() + SumSizes(header.layers[..i])
    }

    function LayersEndSpec(): nat { Wrap(LayerStart(|header.layers|)) }

    method LayersEnd() returns (off: nat)
      ensures off == LayersEndSpec()
    {
      off := Wrap(LayersOffset());
      for i := 0 to |header.layers|
        invariant off == Wrap(LayerStart(i))
      {
        NextStart(i);
        WrapAdds(LayerStart(i), header.layers[i].size);
        off := Wrap(off + header.layers[i].size);
      }
    }

    lemma NextStart(i: nat)
      requires i < |header.layers|
      ensures LayerStart(i + 1) == LayerStart(i) + header.layers[i].size
    {
      assert header.layers[..i + 1][..i] == header.layers[..i];
    }

    function LayerAt(i: nat): Result<Bytes, Error> {
      if i >= |header.layers| then Err(IndexOutOfRange(i, |header.layers|))
      else
        var start := Wrap(LayerStart(i));
        var end := Wrap(start + header.layers[i].size);
        if end > |data| then Err(LayerExceedsBounds(i))
        else if start > end then Err(SlicePanic)
        else Ok(data[start..end])
    }

    method ExtractLayer(index: nat) returns (r: Result<Bytes, Error>)
      ensures r == LayerAt(index)
    {
      if index >= |header.layers| {
        return Err(IndexOutOfRange(index, |header.layers|));
      }
      var offset := Wrap(LayersOffset());
      for i := 0 to index
        invariant offset == Wrap(LayerStart(i))
      {
        NextStart(i);
        WrapAdds(LayerStart(i), header.layers[i].size);
        offset := Wrap(offset + header.layers[i].size);
      }
      var end := Wrap(offset + header.layers[index].size);
      if end > |data| {
        return Err(LayerExceedsBounds(index));
      }
      if offset > end {
        return Err(SlicePanic);
      }
      return Ok(data[offset..end]);
    }

    // The bootstrap section, if the header declares one and it is inside the file.
    function BootstrapSlice(): Result<Option<Bytes>, Error> {
      if header.bootstrapSize == None || header.bootstrapSize == Some(0) then Ok(None)
      else
        var start := LayersEndSpec();
        var end := Wrap(start + header.bootstrapSize.value);
        if end > |data| then Ok(None)
        else if start > end then Err(SlicePanic)
        else Ok(Some(data[start..end]))
    }

    function BootstrapOffset(): Option<nat> {
      if header.bootstrapSize == None || header.bootstrapSize == Some(0) then None else Some(LayersEndSpec())
    }

    function ExtractBootstrap(lossy: Bytes -> Bytes): Result<seq<Bootstrap.Entry>, Error> {
      var slice :- BootstrapSlice();
      if slice == None then Err(NoBootstrapData)
      else
        match Bootstrap.ParsedEntries(lossy, slice.value)
        case Ok(es) => Ok(es)
        case Err(_) => Err(BadBootstrapData)
    }

    function VerifyFrom(hash: HashFn, i: nat): Result<(), Error>
      decreases |header.layers| - i
    {
      if i >= |header.layers| then Ok(())
      else
        var data :- LayerAt(i);
        if hash(data) != DigestHex(header.layers[i]) then
          Err(DigestMismatch(DigestHex(header.layers[i]), hash(data)))
        else VerifyFrom(hash, i + 1)
    }

    function VerifyLayers(hash: HashFn): Result<(), Error> { VerifyFrom(hash, 0) }
  }

  function ParseBundle(data: Bytes): Result<Bundle, Error> {
    var header :- Parse(data);
    Ok(Bundle(header, data))
  }

  function VerifyDigest(hash: HashFn, data: Bytes, expected: Bytes): Result<(), Error> {
    if hash(data) != expected then Err(DigestMismatch(expected, hash(data))) else Ok(())
  }

  // ----- Layer arithmetic -----

  // The slice a layer would have without wrapping.
  function IdealLayer(b: Bundle, i: nat): Result<Bytes, Error>
    requires i < |b.header.layers|
  {
    var start := b.LayerStart(i);
    var end := start + b.header.layers[i].size;
    if end > |b.data| then Err(LayerExceedsBounds(i)) else Ok(b.data[start..end])
  }

  // Extraction returns the layer's own slice, or the bounds error when it has none in the file,
  // exactly when its end does not wrap or still lies past the file after wrapping.
  lemma ExtractIsIdealIff(b: Bundle, i: nat)
    requires i < |b.header.layers| && |b.data| < LENGTH_LIMIT
    ensures b.LayerAt(i) == IdealLayer(b, i) <==>
            var end := b.LayerStart(i) + b.header.layers[i].size;
            end < U64_LIMIT || Wrap(end) > |b.data|
  {
    hide SumSizes;
    var start, size := b.LayerStart(i), b.header.layers[i].size;
    WrapAdds(start, size);
    WrapBelow(start);
    WrapBelow(start + size);
  }

  lemma WrapBelow(n: nat)
    ensures n < U64_LIMIT ==> Wrap(n) == n
    ensures Wrap(n) <= n
  {
  }

  lemma WrapOver(a: nat, b: nat)
    requires a < U64_LIMIT && b < U64_LIMIT
    ensures a + b >= U64_LIMIT ==> Wrap(a + b) < a
  {
  }

  // Otherwise extraction panics or returns what lies between the wrapped offsets.
  lemma WrappedLayer(b: Bundle, i: nat)
    requires i < |b.header.layers| && |b.data| < LENGTH_LIMIT && b.LayerAt(i) != IdealLayer(b, i)
    ensures var start := b.LayerStart(i) % 0x1_0000_0000_0000_0000;
            var end := (b.LayerStart(i) + b.header.layers[i].size) % 0x1_0000_0000_0000_0000;
            && end <= |b.data|
            && b.LayerAt(i) == if start > end then Err(SlicePanic) else Ok(b.data[start..end])
  {
    hide SumSizes;
    WrapAdds(b.LayerStart(i), b.header.layers[i].size);
    ExtractIsIdealIff(b, i);
  }

  // Two declared sizes whose sum wraps, in a file that ends where the layers should start.
  lemma WrappedSizes(b: Bundle, n: nat)
    requires |b.header.layers| == 2 && b.header.layers[0].size == U64_LIMIT - 1 && b.header.layers[1].size == 1
    requires b.LayersOffset() == |b.data| == n && 0 < n < LENGTH_LIMIT
    ensures b.LayerAt(0) == Err(SlicePanic) && IdealLayer(b, 0) == Err(LayerExceedsBounds(0))
    ensures b.LayerAt(1) == Ok(b.data[n - 1..n]) && IdealLayer(b, 1) == Err(LayerExceedsBounds(1))
  {
    hide SumSizes, Wrap;
    NothingToSum();
    assert b.header.layers[..0] == [];
    b.NextStart(0);
    WrapBelow(n);
    WrapOnce(n - 1);
  }

  lemma WrapOnce(n: nat)
    requires n < U64_LIMIT
    ensures Wrap(n + U64_LIMIT) == n
  {
  }

  // Such a file: nothing but a header.  The first layer panics, the second is a byte of the header.
  lemma WrappedSizesExtract(h: BundleHeader) returns (b: Bundle)
    requires |h.layers| == 2 && h.layers[0].size == U64_LIMIT - 1 && h.layers[1].size == 1
    requires |Encode(h)| < LENGTH_LIMIT
    ensures ParseBundle(Encode(h)) == Ok(b)
    ensures b.LayerAt(0) == Err(SlicePanic) && IdealLayer(b, 0) == Err(LayerExceedsBounds(0))
    ensures b.LayerAt(1) == Ok([Encode(h)[|Encode(h)| - 1]]) && IdealLayer(b, 1) == Err(LayerExceedsBounds(1))
  {
    hide Parse, Write, FindMagic, SumSizes, Bundle.LayerAt, IdealLayer;
    NothingHasNoMagic();
    ParseEncoded([], h, []);
    assert [] + (Encode(h) + []) == Encode(h);
    var n := |Encode(h)|;
    b := Bundle(Located(Normal(h), 0, n), Encode(h));
    WrappedSizes(b, n);
    assert b.data[n - 1..n] == [b.data[n - 1]];
  }

  predicate AllExtract(b: Bundle) {
    forall i | 0 <= i < |b.header.layers| :: b.LayerAt(i).Ok?
  }

  lemma NothingToSum()
    ensures SumSizes([]) == 0
  {
  }

  lemma ExtractedInside(b: Bundle, i: nat)
    requires i < |b.header.layers| && b.LayerStart(i) <= |b.data| < LENGTH_LIMIT && b.LayerAt(i).Ok?
    ensures b.LayerStart(i) + b.header.layers[i].size <= |b.data| && b.LayerAt(i) == IdealLayer(b, i)
  {
    hide SumSizes, Wrap;
    var start, size := b.LayerStart(i), b.header.layers[i].size;
    WrapBelow(start);
    WrapBelow(start + size);
    WrapOver(start, size);
  }

  // When every layer can be extracted no sum wrapped: the layers lie one after another in the file.
  lemma {:induction false} ExtractedInOrder(b: Bundle, n: nat)
    requires n <= |b.header.layers| && b.LayersOffset() <= |b.data| < LENGTH_LIMIT
    requires forall i | 0 <= i < n :: b.LayerAt(i).Ok?
    ensures b.LayerStart(n) <= |b.data|
    ensures forall i {:trigger b.LayerAt(i)} | 0 <= i < n ::
              b.LayerStart(i) + b.header.layers[i].size <= |b.data| && b.LayerAt(i) == IdealLayer(b, i)
  {
    hide SumSizes, Wrap, IdealLayer;
    if n == 0 {
      assert b.header.layers[..0] == [] && SumSizes([]) == 0 by { NothingToSum(); }
    } else {
      ExtractedInOrder(b, n - 1);
      b.NextStart(n - 1);
      assert b.LayerAt(n - 1).Ok?;
      ExtractedInside(b, n - 1);
      forall i | 0 <= i < n
        ensures b.LayerStart(i) + b.header.layers[i].size <= |b.data| && b.LayerAt(i) == IdealLayer(b, i)
      {
        if i == n - 1 {
        } else {
          assert b.LayerAt(i).Ok?;
        }
      }
    }
  }

  // ----- The layer check -----

  predicate LayerVerifies(b: Bundle, hash: HashFn, j: nat)
    requires j < |b.header.layers|
  {
    b.LayerAt(j).Ok? && hash(b.LayerAt(j).value) == DigestHex(b.header.layers[j])
  }

  lemma {:induction false} VerifiedFrom(b: Bundle, hash: HashFn, i: nat)
    ensures b.VerifyFrom(hash, i).Ok? <==> forall j | i <= j < |b.header.layers| :: LayerVerifies(b, hash, j)
    decreases |b.header.layers| - i
  {
    hide SumSizes, Wrap;
    if i < |b.header.layers| {
      VerifiedFrom(b, hash, i + 1);
      assert LayerVerifies(b, hash, i) <==>
             b.LayerAt(i).Ok? && hash(b.LayerAt(i).value) == DigestHex(b.header.layers[i]);
    }
  }

  // The check passes exactly when every layer is in the file and hashes to its digest.
  lemma VerifiedIff(b: Bundle, hash: HashFn)
    ensures b.VerifyLayers(hash).Ok? <==> forall j | 0 <= j < |b.header.layers| :: LayerVerifies(b, hash, j)
    ensures b.VerifyLayers(hash).Ok? ==> AllExtract(b)
  {
    VerifiedFrom(b, hash, 0);
    assert forall j | 0 <= j < |b.header.layers| :: LayerVerifies(b, hash, j) ==> b.LayerAt(j).Ok?;
  }

  // When it does not pass, the error is that of the first layer that does not verify.
  lemma {:induction false} FirstFailure(b: Bundle, hash: HashFn, i: nat) returns (k: nat)
    requires b.VerifyFrom(hash, i).Err?
    ensures i <= k < |b.header.layers| && forall j | i <= j < k :: LayerVerifies(b, hash, j)
    ensures !LayerVerifies(b, hash, k)
    ensures b.VerifyFrom(hash, i) ==
            if b.LayerAt(k).Err? then Err(b.LayerAt(k).error)
            else Err(DigestMismatch(DigestHex(b.header.layers[k]), hash(b.LayerAt(k).value)))
    decreases |b.header.layers| - i
  {
    hide SumSizes, Wrap, Bundle.LayerAt;
    if LayerVerifies(b, hash, i) {
      k := FirstFailure(b, hash, i + 1);
    } else {
      k := i;
    }
  }

  // Only an index past the last layer is out of range.
  lemma OutOfRangeIff(b: Bundle, i: nat)
    ensures b.LayerAt(i) == Err(IndexOutOfRange(i, |b.header.layers|)) <==> i >= |b.header.layers|
    ensures b.LayerAt(i).Err? ==>
              b.LayerAt(i).error in [IndexOutOfRange(i, |b.header.layers|), LayerExceedsBounds(i), SlicePanic]
  {
    hide SumSizes, Wrap;
  }

  // ----- The bootstrap section -----

  // A section is declared by a positive size.  Where the layers end without wrapping and the
  // section's end does not wrap, it is the bytes there, or nothing when it reaches past the file.
  lemma BootstrapIsIdeal(b: Bundle)
    requires b.header.bootstrapSize.Some? && b.header.bootstrapSize.value > 0
    requires b.LayerStart(|b.header.layers|) + b.header.bootstrapSize.value < U64_LIMIT
    ensures var start := b.LayerStart(|b.header.layers|);
            var end := start + b.header.bootstrapSize.value;
            && b.BootstrapOffset() == Some(start)
            && b.BootstrapSlice() == Ok(if end <= |b.data| then Some(b.data[start..end]) else None)
  {
    hide SumSizes;
    WrapBelow(b.LayerStart(|b.header.layers|));
    WrapBelow(b.LayerStart(|b.header.layers|) + b.header.bootstrapSize.value);
  }

  // Otherwise it is what lies between the wrapped offsets, if they are in the file and in order.
  lemma BootstrapWrapped(b: Bundle)
    requires b.header.bootstrapSize.Some? && b.header.bootstrapSize.value > 0
    ensures var start := b.LayerStart(|b.header.layers|) % 0x1_0000_0000_0000_0000;
            var end := (b.LayerStart(|b.header.layers|) + b.header.bootstrapSize.value) % 0x1_0000_0000_0000_0000;
            && b.BootstrapOffset() == Some(start)
            && (b.BootstrapSlice() == Ok(None) <==> end > |b.data|)
            && (b.BootstrapSlice() == Err(SlicePanic) <==> end <= |b.data| && start > end)
            && (start <= end <= |b.data| ==> b.BootstrapSlice() == Ok(Some(b.data[start..end])))
  {
    hide SumSizes;
    WrapAdds(b.LayerStart(|b.header.layers|), b.header.bootstrapSize.value);
  }

  lemma NoBootstrapDeclared(b: Bundle)
    requires b.header.bootstrapSize in [None, Some(0)]
    ensures b.BootstrapOffset() == None && b.BootstrapSlice() == Ok(None)
  {
  }

  // Why there are no entries to extract: nothing is declared inside the file, the slice would
  // panic, or what is there does not parse.
  lemma ExtractBootstrapError(b: Bundle, lossy: Bytes -> Bytes)
    ensures var r, slice := b.ExtractBootstrap(lossy), b.BootstrapSlice();
            && (r == Err(NoBootstrapData) <==> slice == Ok(None))
            && (r == Err(SlicePanic) <==> slice == Err(SlicePanic))
            && (r == Err(BadBootstrapData) <==>
                  slice.Ok? && slice.value.Some? && Bootstrap.ParsedEntries(lossy, slice.value.value).Err?)
            && (r.Ok? ==>
                  slice.Ok? && slice.value.Some? && Bootstrap.ParsedEntries(lossy, slice.value.value) == Ok(r.value))
  {
    hide Bootstrap.ParsedEntries, Bundle.LayersEndSpec;
  }

  // ----- Layouts -----

  function Concat(xs: seq<Bytes>): Bytes {
    if xs == [] then [] else Concat(xs[..|xs| - 1]) + xs[|xs| - 1]
  }

  predicate Sizes(ls: seq<LayerRef>, images: seq<Bytes>) {
    |ls| == |images| && forall i | 0 <= i < |ls| :: ls[i].size == |images[i]|
  }

  lemma {:induction false} SizesAddUp(ls: seq<LayerRef>, images: seq<Bytes>)
    requires Sizes(ls, images)
    ensures SumSizes(ls) == |Concat(images)|
  {
    if ls != [] {
      SizesAddUp(ls[..|ls| - 1], images[..|images| - 1]);
    }
  }

  lemma {:induction false} ConcatSlice(images: seq<Bytes>, i: nat)
    requires i < |images|
    ensures |Concat(images[..i])| + |images[i]| <= |Concat(images)|
    ensures Concat(images)[|Concat(images[..i])|..|Concat(images[..i])| + |images[i]|] == images[i]
  {
    var init := images[..|images| - 1];
    if i < |init| {
      ConcatSlice(init, i);
      assert init[..i] == images[..i] && init[i] == images[i];
    } else {
      assert init == images[..i];
    }
  }

  // A file that has `images` laid out after its header gives each of them back.
  lemma LayoutExtracts(b: Bundle, pre: Bytes, images: seq<Bytes>, post: Bytes)
    requires b.data == pre + (Concat(images) + post) && |b.data| < LENGTH_LIMIT
    requires b.LayersOffset() == |pre| && Sizes(b.header.layers, images)
    ensures forall i | 0 <= i < |images| :: b.LayerAt(i) == Ok(images[i])
    ensures b.LayersEndSpec() == |pre| + |Concat(images)|
  {
    hide SumSizes, Concat;
    var ls := b.header.layers;
    forall i | 0 <= i < |images|
      ensures b.LayerAt(i) == Ok(images[i])
    {
      SizesAddUp(ls[..i], images[..i]);
      ConcatSlice(images, i);
      var k := |Concat(images[..i])|;
      WrapBelow(|pre| + k);
      WrapBelow(|pre| + k + |images[i]|);
      assert b.data[|pre| + k..|pre| + k + |images[i]|] == Concat(images)[k..k + |images[i]|];
    }
    assert ls[..|images|] == ls && images[..|images|] == images;
    SizesAddUp(ls, images);
    WrapBelow(|pre| + |Concat(images)|);
  }
}
