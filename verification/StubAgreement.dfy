/**
 The C extractor of the stub and the Rust parser of the library read the same format: what one
 accepts and extracts, related to what the other accepts and returns.
 */
module StubAgreement {
  import opened ByteCodec
  import opened Bootstrap
  import opened Stub

  // Writes the entries in order, so a later entry replaces an earlier one at the same path.
  function WriteEntries(files: map<Bytes, Bytes>, dir: Bytes, es: seq<Entry>): map<Bytes, Bytes>
    decreases es
  {
    if es == [] then files else WriteEntries(files[EntryPath(dir, es[0].name) := es[0].data], dir, es[1..])
  }

  predicate Writable(dir: Bytes, es: seq<Entry>, openable: Bytes -> bool) {
    forall e :: e in es ==> |e.name| <= 255 && openable(EntryPath(dir, e.name))
  }

  lemma HeadOfEntry(d: Bytes)
    ensures ReadEntry(d).Ok? ==>
              var (e, end) := ReadEntry(d).value;
              if |e.name| >= NAME_SIZE then EntryHead(d) == None
              else EntryHead(d) == Some(Head(e.name, |e.data|, e.data + end))
    ensures ReadEntry(d).Err? && EntryHead(d).Some? ==> |EntryHead(d).value.rest| < EntryHead(d).value.dataLen
  {
    hide FromLittle;
    if |d| >= 2 {
      var n := FromLittle(d[..2]);
      if |d[2..]| >= n && |d[2..][n..]| >= 4 {
        var d3 := d[2..][n..][4..];
        var m := FromLittle(d[2..][n..][..4]);
        if |d3| >= m {
          assert d3 == d3[..m] + d3[m..];
        }
      }
    }
  }

  // The extractor succeeds exactly when the parser would read the same entries and every name
  // fits and can be opened; it then leaves exactly the entries' files, in order.
  lemma {:induction false} ExtractsWhatParses(count: nat, d: Bytes, dir: Bytes, files: map<Bytes, Bytes>,
                                              openable: Bytes -> bool)
    ensures var x := ExtractEntries(count, d, dir, files, openable);
            var p := ReadEntries(count, d);
            && (x.ok <==> p.Ok? && Writable(dir, p.value.0, openable))
            && (x.ok ==> x.files == WriteEntries(files, dir, p.value.0))
  {
    hide FromLittle, ReadEntry, EntryHead, EntryPath, WholeChunks;
    if count > 0 {
      HeadOfEntry(d);
      if ReadEntry(d).Ok? {
        var (e, end) := ReadEntry(d).value;
        var path := EntryPath(dir, e.name);
        if |e.name| < NAME_SIZE && openable(path) {
          var rest := e.data + end;
          assert rest[..|e.data|] == e.data && rest[|e.data|..] == end;
          ExtractsWhatParses(count - 1, end, dir, files[path := e.data], openable);
        }
        if ReadEntries(count - 1, end).Ok? {
          ConsWritable(dir, e, ReadEntries(count - 1, end).value.0, openable);
        }
      }
    }
  }

  lemma ConsWritable(dir: Bytes, e: Entry, es: seq<Entry>, openable: Bytes -> bool)
    ensures Writable(dir, [e] + es, openable) <==>
            |e.name| <= 255 && openable(EntryPath(dir, e.name)) && Writable(dir, es, openable)
    ensures ([e] + es)[0] == e && ([e] + es)[1..] == es
  {
    assert e in [e] + es;
    assert forall x :: x in es ==> x in [e] + es;
  }

  // A failed extraction leaves the files of the entries before the first that cannot be read or
  // written, and, when only its data is cut short, that one's complete 4096-byte chunks.
  lemma {:induction false} FailedExtraction(count: nat, d: Bytes, dir: Bytes, files: map<Bytes, Bytes>,
                                            openable: Bytes -> bool)
      returns (es: seq<Entry>, rest: Bytes)
    requires !ExtractEntries(count, d, dir, files, openable).ok
    ensures |es| < count && ReadEntries(|es|, d) == Ok((es, rest)) && Writable(dir, es, openable)
    ensures var left, after := WriteEntries(files, dir, es), ExtractEntries(count, d, dir, files, openable).files;
            match EntryHead(rest)
            case None => after == left
            case Some(Head(name, dataLen, data)) =>
              if !openable(EntryPath(dir, name)) then after == left
              else |data| < dataLen && after == left[EntryPath(dir, name) := data[..|data| - |data| % 4096]]
  {
    hide FromLittle, ReadEntry, EntryHead, EntryPath, WriteEntries;
    es, rest := [], d;
    NothingRead(d, dir, files);
    HeadOfEntry(d);
    if EntryHead(d).Some? {
      var Head(name, dataLen, data) := EntryHead(d).value;
      WholeChunksOnly(data);
      if openable(EntryPath(dir, name)) && |data| >= dataLen {
        var (e, end) := ReadEntry(d).value;
        assert data[..dataLen] == e.data && data[dataLen..] == end;
        var after := files[EntryPath(dir, name) := e.data];
        var es', rest' := FailedExtraction(count - 1, end, dir, after, openable);
        es, rest := [e] + es', rest';
        ConsWritable(dir, e, es', openable);
        ConsWrites(files, dir, e, es');
      }
    }
  }

  lemma NothingRead(d: Bytes, dir: Bytes, files: map<Bytes, Bytes>)
    ensures ReadEntries(0, d) == Ok(([], d)) && WriteEntries(files, dir, []) == files
  {
  }

  lemma ConsWrites(files: map<Bytes, Bytes>, dir: Bytes, e: Entry, es: seq<Entry>)
    ensures WriteEntries(files, dir, [e] + es) == WriteEntries(files[EntryPath(dir, e.name) := e.data], dir, es)
  {
    hide EntryPath;
    assert ([e] + es)[1..] == es;
  }

  lemma WholeChunksOnly(d: Bytes)
    ensures WholeChunks(d) == d[..|d| - |d| % 4096]
  {
  }

  // Reading on past the end of an accepted section changes nothing.
  lemma LongerInput(d: Bytes, more: Bytes)
    requires ReadSection(d).Ok?
    ensures ReadSection(d + more) == Ok((ReadSection(d).value.0, ReadSection(d).value.1 + more))
  {
    var (es, rest) := ReadSection(d).value;
    AcceptsExactlyEncodings(d, es, rest);
    Assoc(BootstrapData(es), rest, more);
    AcceptsExactlyEncodings(d + more, es, rest + more);
  }

  // For a file whose trailer names a slice inside it: the parser accepts that slice exactly when
  // reading on from its start succeeds and stays inside it.
  lemma SliceOrStream(file: Bytes, offset: nat, size: nat)
    requires offset + size <= |file|
    ensures var whole := ReadSection(file[offset..]);
            var slice := ReadSection(file[offset..offset + size]);
            && (slice.Ok? <==> whole.Ok? && |whole.value.1| >= |file| - offset - size)
            && (slice.Ok? ==> slice.value.0 == whole.value.0)
  {
    var d, slice := file[offset..], file[offset..offset + size];
    var more := file[offset + size..];
    assert d == slice + more;
    if ReadSection(slice).Ok? {
      LongerInput(slice, more);
    }
    if ReadSection(d).Ok? && |ReadSection(d).value.1| >= |more| {
      var (es, rest) := ReadSection(d).value;
      AcceptsExactlyEncodings(d, es, rest);
      var inside := rest[..|rest| - |more|];
      assert d == BootstrapData(es) + rest;
      assert slice == d[..|d| - |more|] == BootstrapData(es) + inside;
      AcceptsExactlyEncodings(slice, es, inside);
    }
  }

  // Whenever the parser accepts the slice the trailer names, the stub extracts exactly the
  // parsed entries, unless a name is too long for it or a path cannot be opened.
  lemma StubAgreesWithParser(lossy: Bytes -> Bytes, file: Bytes, offset: u64, size: u64, seekLimit: nat, dir: Bytes,
                             files: map<Bytes, Bytes>, openable: Bytes -> bool)
    requires |file| <= seekLimit
    requires ReadTrailer(file) == Some((offset, size)) && offset + size <= |file|
    requires ReadSection(file[offset..offset + size]).Ok?
    requires ValidNames(lossy, ReadSection(file[offset..offset + size]).value.0)
    ensures ParsedEntries(lossy, file[offset..offset + size]).Ok?
    ensures var es := ParsedEntries(lossy, file[offset..offset + size]).value;
            var x := ExtractBundle(file, seekLimit, dir, files, openable);
            && (x.ok <==> Writable(dir, es, openable))
            && (x.ok ==> x.files == WriteEntries(files, dir, es))
  {
    hide FromLittle, ExtractEntries, ReadEntries, ReadTrailer;
    SliceOrStream(file, offset, size);
    var d := file[offset..];
    ValidNamesKept(lossy, ReadSection(d).value.0);
    ExtractsWhatParses(FromLittle(d[..4]), d[4..], dir, files, openable);
  }

  // And nothing else: a successful extraction is of entries the parser reads at that offset.
  lemma StubExtractsOnlyParsed(file: Bytes, seekLimit: nat, dir: Bytes, files: map<Bytes, Bytes>,
                               openable: Bytes -> bool)
    requires ExtractBundle(file, seekLimit, dir, files, openable).ok
    ensures ReadTrailer(file).Some?
    ensures var p := ReadSection(Sought(file, ReadTrailer(file).value.0, seekLimit));
            && p.Ok? && Writable(dir, p.value.0, openable)
            && ExtractBundle(file, seekLimit, dir, files, openable).files == WriteEntries(files, dir, p.value.0)
  {
    hide FromLittle, ExtractEntries, ReadEntries, ReadTrailer;
    var d := Sought(file, ReadTrailer(file).value.0, seekLimit);
    ExtractsWhatParses(FromLittle(d[..4]), d[4..], dir, files, openable);
  }

  // ----- What the files are -----

  // A path that no entry has keeps its file, or its absence.
  lemma {:induction false} OtherPathsKept(files: map<Bytes, Bytes>, dir: Bytes, es: seq<Entry>, path: Bytes)
    requires forall e :: e in es ==> EntryPath(dir, e.name) != path
    ensures var after := WriteEntries(files, dir, es);
            (path in after <==> path in files) && (path in files ==> after[path] == files[path])
    decreases es
  {
    hide EntryPath;
    if es != [] {
      assert forall e :: e in es[1..] ==> e in es;
      OtherPathsKept(files[EntryPath(dir, es[0].name) := es[0].data], dir, es[1..], path);
    }
  }

  // Among entries with the same path the last one wins.
  lemma {:induction false} LastEntryWins(files: map<Bytes, Bytes>, dir: Bytes, es: seq<Entry>, i: nat)
    requires i < |es|
    requires forall j :: i < j < |es| ==> EntryPath(dir, es[j].name) != EntryPath(dir, es[i].name)
    ensures var path := EntryPath(dir, es[i].name);
            path in WriteEntries(files, dir, es) && WriteEntries(files, dir, es)[path] == es[i].data
    decreases es
  {
    hide EntryPath;
    var step := files[EntryPath(dir, es[0].name) := es[0].data];
    if i == 0 {
      assert forall e :: e in es[1..] ==> exists j :: 0 < j < |es| && es[j] == e;
      OtherPathsKept(step, dir, es[1..], EntryPath(dir, es[0].name));
    } else {
      assert es[1..][i - 1] == es[i];
      LastEntryWins(step, dir, es[1..], i - 1);
    }
  }

  // A directory and a NUL-free name of at most 255 bytes each fit the path buffer uncut, so
  // two such names have the same path only when they are the same name.
  lemma PathFits(dir: Bytes, name: Bytes)
    requires |dir| <= 255 && |name| <= 255 && NUL !in name
    ensures EntryPath(dir, name) == dir + [SLASH] + name
  {
    CStringUntil(name, |name|);
  }

  lemma PathsDiffer(dir: Bytes, name: Bytes, name': Bytes)
    requires |dir| <= 255 && |name| <= 255 && |name'| <= 255 && NUL !in name && NUL !in name'
    ensures EntryPath(dir, name) == EntryPath(dir, name') <==> name == name'
  {
    hide EntryPath;
    PathFits(dir, name);
    PathFits(dir, name');
    var p, p' := EntryPath(dir, name), EntryPath(dir, name');
    assert p[|dir| + 1..] == name && p'[|dir| + 1..] == name';
  }
}
