/**
 The bootstrap section of a bundle: a counted list of named binaries and a 20-byte trailer
 that says where the section lies (`nexpack-core/src/lib.rs`).

 `String::from_utf8_lossy` is the parameter `lossy` of the parser: any function from bytes to
 bytes.  A name is valid UTF-8 exactly when `lossy` leaves it alone.
 */
module Bootstrap {
  import opened ByteCodec

  datatype Entry = Entry(name: Bytes, data: Bytes)

  datatype ParseError = TooShort | NameLenTruncated | NameTruncated | DataLenTruncated | DataTruncated

  type Parsed<T> = Result<(T, Bytes), ParseError>

  // ----- Encoding -----

  function MakeEntry(e: Entry): Bytes {
    Little(2, |e.name| % U16_LIMIT) + (e.name + (Little(4, |e.data| % U32_LIMIT) + e.data))
  }

  function MakeEntries(es: seq<Entry>): Bytes {
    if es == [] then [] else MakeEntry(es[0]) + MakeEntries(es[1..])
  }

  function BootstrapData(es: seq<Entry>): Bytes {
    Little(4, |es| % U32_LIMIT) + MakeEntries(es)
  }

  // The sizes the 16-bit and 32-bit length fields can carry.
  predicate InBounds(es: seq<Entry>) {
    |es| < U32_LIMIT && forall e :: e in es ==> |e.name| < U16_LIMIT && |e.data| < U32_LIMIT
  }

  method MakeBootstrapData(entries: seq<Entry>) returns (buf: Bytes)
    ensures buf == BootstrapData(entries)
  {
    hide Pow256, Little, FromLittle;
    buf := Little(4, |entries| % U32_LIMIT);
    for i := 0 to |entries|
      invariant buf + MakeEntries(entries[i..]) == BootstrapData(entries)
    {
      ghost var before := buf;
      buf := buf + Little(2, |entries[i].name| % U16_LIMIT);
      buf := buf + entries[i].name;
      buf := buf + Little(4, |entries[i].data| % U32_LIMIT);
      buf := buf + entries[i].data;
      assert buf == before + MakeEntry(entries[i]);
      assert entries[i..][1..] == entries[i + 1..];
      assert before + (MakeEntry(entries[i]) + MakeEntries(entries[i + 1..])) == buf + MakeEntries(entries[i + 1..]);
    }
  }

  // ----- Decoding: one entry, then `count` entries, then the whole section -----

  function ReadEntry(d: Bytes): (r: Parsed<Entry>)
    ensures r.Ok? ==> |r.value.1| < |d|
  {
    if |d| < 2 then Err(NameLenTruncated)
    else
      var nameLen := FromLittle(d[..2]);
      var d1 := d[2..];
      if |d1| < nameLen then Err(NameTruncated)
      else
        var name, d2 := d1[..nameLen], d1[nameLen..];
        if |d2| < 4 then Err(DataLenTruncated)
        else
          var dataLen := FromLittle(d2[..4]);
          var d3 := d2[4..];
          if |d3| < dataLen then Err(DataTruncated)
          else Ok((Entry(name, d3[..dataLen]), d3[dataLen..]))
  }

  function ReadEntries(count: nat, d: Bytes): Parsed<seq<Entry>> {
    if count == 0 then Ok(([], d))
    else
      var (e, rest) :- ReadEntry(d);
      var (es, end) :- ReadEntries(count - 1, rest);
      Ok(([e] + es, end))
  }

  // The section's entries with their raw names, and what follows the section.
  function ReadSection(d: Bytes): Parsed<seq<Entry>> {
    if |d| < 4 then Err(TooShort) else ReadEntries(FromLittle(d[..4]), d[4..])
  }

  function LossyNames(lossy: Bytes -> Bytes, es: seq<Entry>): (r: seq<Entry>)
    ensures |r| == |es|
    ensures forall i :: 0 <= i < |es| ==> r[i] == es[i].(name := lossy(es[i].name))
  {
    if es == [] then [] else [es[0].(name := lossy(es[0].name))] + LossyNames(lossy, es[1..])
  }

  function ParsedEntries(lossy: Bytes -> Bytes, d: Bytes): Result<seq<Entry>, ParseError> {
    var (es, _) :- ReadSection(d);
    Ok(LossyNames(lossy, es))
  }

  predicate ValidNames(lossy: Bytes -> Bytes, es: seq<Entry>) {
    forall e :: e in es ==> lossy(e.name) == e.name
  }

  lemma ValidNamesKept(lossy: Bytes -> Bytes, es: seq<Entry>)
    requires ValidNames(lossy, es)
    ensures LossyNames(lossy, es) == es
  {
  }

  // What reading `count` more entries gives when `acc` have been read already.
  ghost function After(acc: seq<Entry>, r: Parsed<seq<Entry>>): Parsed<seq<Entry>> {
    if r.Err? then r else Ok((acc + r.value.0, r.value.1))
  }

  lemma AfterNothing(r: Parsed<seq<Entry>>)
    ensures After([], r) == r
  {
    assert r.Ok? ==> [] + r.value.0 == r.value.0;
  }

  lemma NoMore(acc: seq<Entry>, d: Bytes)
    ensures After(acc, ReadEntries(0, d)) == Ok((acc, d))
  {
    assert acc + [] == acc;
  }

  lemma OneMore(acc: seq<Entry>, count: nat, d: Bytes)
    requires count > 0
    ensures ReadEntry(d).Err? ==> After(acc, ReadEntries(count, d)) == Err(ReadEntry(d).error)
    ensures ReadEntry(d).Ok? ==>
              var (e, rest) := ReadEntry(d).value;
              After(acc, ReadEntries(count, d)) == After(acc + [e], ReadEntries(count - 1, rest))
  {
    if ReadEntry(d).Ok? {
      var (e, rest) := ReadEntry(d).value;
      var r := ReadEntries(count - 1, rest);
      if r.Ok? {
        assert acc + ([e] + r.value.0) == acc + [e] + r.value.0;
      }
    }
  }

  // `ReadEntry` at an offset, in the index arithmetic the parser uses.
  lemma ReadEntryAt(data: Bytes, offset: nat)
    requires offset <= |data|
    ensures ReadEntry(data[offset..]) ==
            if offset + 2 > |data| then Err(NameLenTruncated)
            else
              var n := FromLittle(data[offset..offset + 2]);
              if offset + 2 + n > |data| then Err(NameTruncated)
              else if offset + 2 + n + 4 > |data| then Err(DataLenTruncated)
              else
                var m := FromLittle(data[offset + 2 + n..offset + 2 + n + 4]);
                if offset + 2 + n + 4 + m > |data| then Err(DataTruncated)
                else Ok((Entry(data[offset + 2..offset + 2 + n], data[offset + 2 + n + 4..offset + 2 + n + 4 + m]),
                         data[offset + 2 + n + 4 + m..]))
  {
    hide Pow256, Little, FromLittle;
    var d := data[offset..];
    if |d| >= 2 {
      assert d[..2] == data[offset..offset + 2];
      var n := FromLittle(d[..2]);
      assert d[2..] == data[offset + 2..];
      if |d[2..]| >= n {
        assert d[2..][..n] == data[offset + 2..offset + 2 + n];
        var d2 := d[2..][n..];
        assert d2 == data[offset + 2 + n..];
        if |d2| >= 4 {
          assert d2[..4] == data[offset + 2 + n..offset + 2 + n + 4];
          assert d2[4..] == data[offset + 2 + n + 4..];
          var m := FromLittle(d2[..4]);
          if |d2[4..]| >= m {
            assert d2[4..][..m] == data[offset + 2 + n + 4..offset + 2 + n + 4 + m];
            assert d2[4..][m..] == data[offset + 2 + n + 4 + m..];
          }
        }
      }
    }
  }

  method ParseBootstrapEntries(lossy: Bytes -> Bytes, data: Bytes)
    returns (r: Result<seq<Entry>, ParseError>)
    ensures r == ParsedEntries(lossy, data)
  {
    hide Pow256, Little, FromLittle, ReadEntry, ReadEntries, LossyNames;
    if |data| < 4 {
      return Err(TooShort);
    }
    var count := FromLittle(data[..4]);
    var offset := 4;
    var entries := [];
    ghost var raw: seq<Entry> := [];
    AfterNothing(ReadEntries(count, data[4..]));
    for i := 0 to count
      invariant 4 <= offset <= |data|
      invariant entries == LossyNames(lossy, raw)
      invariant ReadSection(data) == After(raw, ReadEntries(count - i, data[offset..]))
    {
      OneMore(raw, count - i, data[offset..]);
      ReadEntryAt(data, offset);
      if offset + 2 > |data| {
        return Err(NameLenTruncated);
      }
      var nameLen := FromLittle(data[offset..offset + 2]);
      offset := offset + 2;
      if offset + nameLen > |data| {
        return Err(NameTruncated);
      }
      ghost var rawName := data[offset..offset + nameLen];
      var name := lossy(data[offset..offset + nameLen]);
      offset := offset + nameLen;
      if offset + 4 > |data| {
        return Err(DataLenTruncated);
      }
      var dataLen := FromLittle(data[offset..offset + 4]);
      offset := offset + 4;
      if offset + dataLen > |data| {
        return Err(DataTruncated);
      }
      var binary := data[offset..offset + dataLen];
      offset := offset + dataLen;
      entries := entries + [Entry(name, binary)];
      raw := raw + [Entry(rawName, binary)];
    }
    NoMore(raw, data[offset..]);
    return Ok(entries);
  }

  // ----- The encoding is canonical -----

  lemma EntryRoundTrip(e: Entry, rest: Bytes)
    requires |e.name| < U16_LIMIT && |e.data| < U32_LIMIT
    ensures ReadEntry(MakeEntry(e) + rest) == Ok((e, rest))
  {
    hide Pow256, Little, FromLittle;
    Pow256Values();
    LittleInverts(2, |e.name|);
    LittleInverts(4, |e.data|);
    var n, m := Little(2, |e.name|), Little(4, |e.data|);
    Split(n, e.name + (m + e.data), rest);
    Split(e.name, m + e.data, rest);
    Split(m, e.data, rest);
    assert (e.data + rest)[..|e.data|] == e.data && (e.data + rest)[|e.data|..] == rest;
  }

  lemma {:induction false} EntriesRoundTrip(es: seq<Entry>, rest: Bytes)
    requires forall e :: e in es ==> |e.name| < U16_LIMIT && |e.data| < U32_LIMIT
    ensures ReadEntries(|es|, MakeEntries(es) + rest) == Ok((es, rest))
  {
    hide Pow256, Little, FromLittle, MakeEntry, ReadEntry;
    if es == [] {
      assert MakeEntries(es) + rest == rest;
    } else {
      var tail := MakeEntries(es[1..]) + rest;
      Assoc(MakeEntry(es[0]), MakeEntries(es[1..]), rest);
      EntryRoundTrip(es[0], tail);
      EntriesRoundTrip(es[1..], rest);
      assert es == [es[0]] + es[1..];
    }
  }

  lemma SectionRoundTrip(es: seq<Entry>, junk: Bytes)
    requires InBounds(es)
    ensures ReadSection(BootstrapData(es) + junk) == Ok((es, junk))
  {
    hide Pow256, Little, FromLittle, MakeEntries, ReadEntries;
    Pow256Values();
    LittleInverts(4, |es|);
    Split(Little(4, |es|), MakeEntries(es), junk);
    EntriesRoundTrip(es, junk);
  }

  lemma Refold(n: Bytes, name: Bytes, m: Bytes, data: Bytes, rest: Bytes)
    ensures n + (name + (m + (data + rest))) == (n + (name + (m + data))) + rest
  {
    Assoc(n, name + (m + data), rest);
    Assoc(name, m + data, rest);
    Assoc(m, data, rest);
  }

  // The two length fields of an accepted entry, and the input put together again.
  lemma EntryPieces(d: Bytes) returns (n: Bytes, m: Bytes)
    requires ReadEntry(d).Ok?
    ensures var (e, rest) := ReadEntry(d).value;
            && |n| == 2 && FromLittle(n) == |e.name|
            && |m| == 4 && FromLittle(m) == |e.data|
            && d == n + (e.name + (m + (e.data + rest)))
  {
    hide Pow256, Little, FromLittle;
    var (e, rest) := ReadEntry(d).value;
    var d1 := d[2..];
    var d2 := d1[|e.name|..];
    n, m := d[..2], d2[..4];
    assert d2[4..] == e.data + rest;
    assert d2 == m + d2[4..];
    assert d1 == e.name + d2;
    assert d == n + d1;
  }

  lemma EntryIsCanonical(d: Bytes)
    requires ReadEntry(d).Ok?
    ensures var (e, rest) := ReadEntry(d).value;
            |e.name| < U16_LIMIT && |e.data| < U32_LIMIT && d == MakeEntry(e) + rest
  {
    hide Pow256, Little, FromLittle, ReadEntry;
    Pow256Values();
    var (e, rest) := ReadEntry(d).value;
    var n, m := EntryPieces(d);
    LittleOnto(n);
    LittleOnto(m);
    Refold(n, e.name, m, e.data, rest);
  }

  lemma {:induction false} EntriesAreCanonical(count: nat, d: Bytes)
    requires ReadEntries(count, d).Ok?
    ensures var (es, rest) := ReadEntries(count, d).value;
            && |es| == count
            && (forall e :: e in es ==> |e.name| < U16_LIMIT && |e.data| < U32_LIMIT)
            && d == MakeEntries(es) + rest
  {
    hide Pow256, Little, FromLittle, MakeEntry, ReadEntry;
    if count > 0 {
      var (e, d1) := ReadEntry(d).value;
      var (es1, rest) := ReadEntries(count - 1, d1).value;
      EntryIsCanonical(d);
      EntriesAreCanonical(count - 1, d1);
      assert ([e] + es1)[1..] == es1;
      Assoc(MakeEntry(e), MakeEntries(es1), rest);
    }
  }

  // The parser accepts `d` with entries `es` exactly when `d` starts with their one encoding
  // and the length fields can carry their sizes.
  lemma AcceptsExactlyEncodings(d: Bytes, es: seq<Entry>, rest: Bytes)
    ensures ReadSection(d) == Ok((es, rest)) <==> InBounds(es) && d == BootstrapData(es) + rest
  {
    hide Pow256, Little, FromLittle, MakeEntries, ReadEntries;
    if ReadSection(d) == Ok((es, rest)) {
      Pow256Values();
      LittleOnto(d[..4]);
      EntriesAreCanonical(FromLittle(d[..4]), d[4..]);
      assert d == d[..4] + d[4..];
      Assoc(d[..4], MakeEntries(es), rest);
    }
    if InBounds(es) && d == BootstrapData(es) + rest {
      SectionRoundTrip(es, rest);
    }
  }

  // Every proper prefix of an encoding is rejected, whichever field the cut falls in.
  lemma RejectsTruncation(es: seq<Entry>, cut: nat)
    requires InBounds(es) && cut < |BootstrapData(es)|
    ensures ReadSection(BootstrapData(es)[..cut]).Err?
  {
    hide Pow256, Little, FromLittle;
    var whole := BootstrapData(es);
    var part := whole[..cut];
    if ReadSection(part).Ok? {
      var (es', rest) := ReadSection(part).value;
      AcceptsExactlyEncodings(part, es', rest);
      var more := rest + whole[cut..];
      assert whole == BootstrapData(es') + more;
      AcceptsExactlyEncodings(whole, es', more);
      assert whole == BootstrapData(es) + [];
      AcceptsExactlyEncodings(whole, es, []);
      assert false;
    }
  }

  lemma {:induction false} EntriesConcat(a: seq<Entry>, b: seq<Entry>)
    ensures MakeEntries(a + b) == MakeEntries(a) + MakeEntries(b)
  {
    hide MakeEntry;
    if a == [] {
      assert a + b == b;
    } else {
      assert (a + b)[1..] == a[1..] + b;
      EntriesConcat(a[1..], b);
      Assoc(MakeEntry(a[0]), MakeEntries(a[1..]), MakeEntries(b));
    }
  }

  // Where a cut in an entry is noticed.
  lemma EntryTruncation(e: Entry, k: nat)
    requires |e.name| < U16_LIMIT && |e.data| < U32_LIMIT && k < |MakeEntry(e)|
    ensures ReadEntry(MakeEntry(e)[..k]) == Err(
              if k < 2 then NameLenTruncated
              else if k < 2 + |e.name| then NameTruncated
              else if k < 2 + |e.name| + 4 then DataLenTruncated
              else DataTruncated)
  {
    hide Pow256, Little, FromLittle;
    Pow256Values();
    LittleInverts(2, |e.name|);
    LittleInverts(4, |e.data|);
    var n, m, whole := Little(2, |e.name|), Little(4, |e.data|), MakeEntry(e);
    var part := whole[..k];
    if k >= 2 {
      assert part[..2] == n && part[2..] == whole[2..k];
      if k >= 2 + |e.name| + 4 {
        var at := 2 + |e.name|;
        assert whole[at..at + 4] == m && part[2..][|e.name|..] == whole[at..k];
        assert whole[at..k][..4] == whole[at..at + 4];
      }
    }
  }

  lemma {:induction false} ReadsThrough(es: seq<Entry>, more: nat, tail: Bytes)
    requires forall e :: e in es ==> |e.name| < U16_LIMIT && |e.data| < U32_LIMIT
    requires more > 0 && ReadEntry(tail).Err?
    ensures ReadEntries(|es| + more, MakeEntries(es) + tail) == Err(ReadEntry(tail).error)
  {
    hide MakeEntry, ReadEntry;
    if es == [] {
      assert MakeEntries(es) + tail == tail;
    } else {
      Assoc(MakeEntry(es[0]), MakeEntries(es[1..]), tail);
      EntryRoundTrip(es[0], MakeEntries(es[1..]) + tail);
      ReadsThrough(es[1..], more, tail);
    }
  }

  // An encoding cut inside its `i`-th entry is rejected with the error of the field the cut is in,
  // and one cut inside the count as too short.
  lemma TruncationError(es: seq<Entry>, i: nat, k: nat)
    requires InBounds(es) && i < |es| && k < |MakeEntry(es[i])|
    ensures var cut := 4 + |MakeEntries(es[..i])| + k;
            && cut < |BootstrapData(es)|
            && ReadSection(BootstrapData(es)[..cut]) == Err(
                 if k < 2 then NameLenTruncated
                 else if k < 2 + |es[i].name| then NameTruncated
                 else if k < 2 + |es[i].name| + 4 then DataLenTruncated
                 else DataTruncated)
  {
    hide Pow256, Little, FromLittle, MakeEntry, ReadEntry, ReadEntries, MakeEntries;
    assert |es| < Pow256(4) by { Pow256Values(); }
    LittleInverts(4, |es|);
    var a, e, c := es[..i], es[i], es[i + 1..];
    assert e in es && forall x :: x in a ==> x in es;
    EntriesAround(es, i);
    EntryTruncation(e, k);
    ReadsThrough(a, |es| - i, MakeEntry(e)[..k]);
    CutInside(Little(4, |es|), MakeEntries(a), MakeEntry(e), MakeEntries(c), k);
  }

  lemma EntriesAround(es: seq<Entry>, i: nat)
    requires i < |es|
    ensures MakeEntries(es) == MakeEntries(es[..i]) + (MakeEntry(es[i]) + MakeEntries(es[i + 1..]))
  {
    hide MakeEntry, MakeEntries;
    EntriesMiddle(es[..i], es[i], es[i + 1..]);
    assert es[..i] + ([es[i]] + es[i + 1..]) == es;
  }

  lemma EntriesMiddle(a: seq<Entry>, e: Entry, c: seq<Entry>)
    ensures MakeEntries(a + ([e] + c)) == MakeEntries(a) + (MakeEntry(e) + MakeEntries(c))
  {
    hide MakeEntry, MakeEntries;
    EntriesConcat(a, [e] + c);
    OneEntry(e, c);
  }

  lemma OneEntry(e: Entry, es: seq<Entry>)
    ensures MakeEntries([e] + es) == MakeEntry(e) + MakeEntries(es)
  {
    hide MakeEntry;
    assert ([e] + es)[1..] == es;
  }

  lemma CutInside(count: Bytes, before: Bytes, entry: Bytes, after: Bytes, k: nat)
    requires k < |entry|
    ensures var whole, cut := count + (before + (entry + after)), |count| + |before| + k;
            && cut < |whole| && |whole[..cut]| >= |count|
            && whole[..cut][..|count|] == count && whole[..cut][|count|..] == before + entry[..k]
  {
  }

  lemma CountTruncation(es: seq<Entry>, cut: nat)
    requires cut < 4
    ensures ReadSection(BootstrapData(es)[..cut]) == Err(TooShort)
  {
    hide Little, MakeEntries;
  }

  // The layout of any entry, also of one too long for its length fields.
  lemma EntryLayout(e: Entry)
    ensures var m, n := MakeEntry(e), |e.name|;
            && |m| == 2 + n + 4 + |e.data|
            && FromLittle(m[..2]) == n % 0x1_0000 && m[2..2 + n] == e.name
            && FromLittle(m[2 + n..2 + n + 4]) == |e.data| % 0x1_0000_0000 && m[2 + n + 4..] == e.data
  {
    hide Pow256, Little, FromLittle;
    Pow256Values();
    var n, m := |e.name| % U16_LIMIT, |e.data| % U32_LIMIT;
    LittleInverts(2, n);
    LittleInverts(4, m);
    var b := MakeEntry(e);
    assert b[..2] == Little(2, n) && b[2 + |e.name|..2 + |e.name| + 4] == Little(4, m);
  }

  // And of any section: the count, then the entries one after another.
  lemma SectionLayout(es: seq<Entry>, i: nat)
    requires i < |es|
    ensures FromLittle(BootstrapData(es)[..4]) == |es| % 0x1_0000_0000
    ensures var at := 4 + |MakeEntries(es[..i])|;
            && at + |MakeEntry(es[i])| <= |BootstrapData(es)|
            && BootstrapData(es)[at..at + |MakeEntry(es[i])|] == MakeEntry(es[i])
            && (i == |es| - 1 ==> at + |MakeEntry(es[i])| == |BootstrapData(es)|)
  {
    hide Pow256, Little, FromLittle, MakeEntry, MakeEntries;
    Pow256Values();
    LittleInverts(4, |es| % U32_LIMIT);
    var count := Little(4, |es| % U32_LIMIT);
    var a, c := es[..i], es[i + 1..];
    EntriesAround(es, i);
    NoEntries();
    assert i == |es| - 1 ==> c == [];
    SliceOut(count, MakeEntries(a), MakeEntry(es[i]), MakeEntries(c));
  }

  lemma NoEntries()
    ensures MakeEntries([]) == []
  {
  }

  lemma SliceOut(count: Bytes, a: Bytes, b: Bytes, c: Bytes)
    ensures var whole, at := count + (a + (b + c)), |count| + |a|;
            && whole[..|count|] == count && at + |b| <= |whole| && whole[at..at + |b|] == b
            && (c == [] ==> at + |b| == |whole|)
  {
  }

  // With any names, the parser returns the entries under the names it decodes.
  lemma ParserDecodesNames(lossy: Bytes -> Bytes, es: seq<Entry>, junk: Bytes)
    requires InBounds(es)
    ensures var r := ParsedEntries(lossy, BootstrapData(es) + junk);
            && r.Ok? && |r.value| == |es|
            && forall i | 0 <= i < |es| :: r.value[i] == Entry(lossy(es[i].name), es[i].data)
  {
    hide BootstrapData, ReadSection;
    SectionRoundTrip(es, junk);
  }

  // The same three facts about the parser that callers see, with the names it decodes.
  lemma ParserRoundTrip(lossy: Bytes -> Bytes, es: seq<Entry>, junk: Bytes)
    requires InBounds(es) && ValidNames(lossy, es)
    ensures ParsedEntries(lossy, BootstrapData(es) + junk) == Ok(es)
  {
    SectionRoundTrip(es, junk);
    ValidNamesKept(lossy, es);
  }

  lemma ParserIsCanonical(lossy: Bytes -> Bytes, d: Bytes)
    requires ReadSection(d).Ok? && ValidNames(lossy, ReadSection(d).value.0)
    ensures ParsedEntries(lossy, d).Ok?
    ensures BootstrapData(ParsedEntries(lossy, d).value) <= d
  {
    var (es, rest) := ReadSection(d).value;
    AcceptsExactlyEncodings(d, es, rest);
    ValidNamesKept(lossy, es);
  }

  // ----- The trailer -----

  const TRAILER_MAGIC: Bytes := [0x4E, 0x58, 0x42, 0x54] // "NXBT"

  function BootstrapTrailer(offset: u64, size: u64): (t: Bytes)
    ensures |t| == 20
  {
    TRAILER_MAGIC + Little(8, offset) + Little(8, size)
  }

  lemma TrailerLayout(offset: u64, size: u64)
    ensures var t := BootstrapTrailer(offset, size);
            t[..4] == Ascii("NXBT") && FromLittle(t[4..12]) == offset && FromLittle(t[12..20]) == size
  {
    hide Pow256, Little, FromLittle;
    Pow256Values();
    LittleInverts(8, offset);
    LittleInverts(8, size);
    var t := BootstrapTrailer(offset, size);
    assert t[4..12] == Little(8, offset) && t[12..20] == Little(8, size);
    assert t[..4] == TRAILER_MAGIC;
  }

  function ReadTrailer(data: Bytes): Option<(u64, u64)> {
    if |data| < 20 then None
    else
      var pos := |data| - 20;
      if data[pos..pos + 4] != TRAILER_MAGIC then None
      else
        LittleBelow8(data[pos + 4..pos + 12]);
        LittleBelow8(data[pos + 12..pos + 20]);
        Some((FromLittle(data[pos + 4..pos + 12]), FromLittle(data[pos + 12..pos + 20])))
  }

  lemma LittleBelow8(b: Bytes)
    requires |b| == 8
    ensures FromLittle(b) < U64_LIMIT
  {
    Pow256Values();
    LittleOnto(b);
  }

  // Reading a trailer is the exact inverse of writing one at the end of a file.
  lemma TrailerRoundTrip(data: Bytes, offset: u64, size: u64)
    ensures ReadTrailer(data) == Some((offset, size)) <==>
            |data| >= 20 && data[|data| - 20..] == BootstrapTrailer(offset, size)
  {
    hide Pow256, Little, FromLittle;
    Pow256Values();
    LittleInverts(8, offset);
    LittleInverts(8, size);
    if |data| >= 20 {
      var pos := |data| - 20;
      var a, b := data[pos + 4..pos + 12], data[pos + 12..pos + 20];
      LittleOnto(a);
      LittleOnto(b);
      assert data[pos..] == data[pos..pos + 4] + a + b;
      if data[pos..] == BootstrapTrailer(offset, size) {
        assert data[pos..pos + 4] == data[pos..][..4] == TRAILER_MAGIC;
        assert a == data[pos..][4..12] == Little(8, offset);
        assert b == data[pos..][12..20] == Little(8, size);
      }
    }
  }
}
