/**
 The stub's environment lookup and its search of PATH (`stub/stub.c`).

 A C string is the byte sequence before its terminating NUL, so reading index `|s|` of it reads
 the NUL.  `accessible` is the answer of `access(path, F_OK)`.
 */
module StubSearch {
  import opened ByteCodec

  const COLON: byte := 0x3A
  const EQUALS: byte := 0x3D
  const PATH_NAME: Bytes := [0x50, 0x41, 0x54, 0x48] // "PATH"

  type CStr = Bytes

  // ----- Environment lookup -----

  predicate Assigns(entry: CStr, name: CStr) { name + [EQUALS] <= entry }

  function EnvValue(env: seq<CStr>, name: CStr): Option<CStr> {
    if env == [] then None
    else if Assigns(env[0], name) then Some(env[0][|name| + 1..])
    else EnvValue(env[1..], name)
  }

  // It is what follows `name=` in the first entry that starts so.
  lemma {:induction false} EnvValueIsFirst(env: seq<CStr>, name: CStr)
    ensures var r := EnvValue(env, name);
            && (r == None <==> forall i | 0 <= i < |env| :: !(name + [0x3D] <= env[i]))
            && (r.Some? ==> exists i | 0 <= i < |env| ::
                  env[i] == name + [0x3D] + r.value && forall j | 0 <= j < i :: !(name + [0x3D] <= env[j]))
  {
    if env != [] {
      if Assigns(env[0], name) {
        assert env[0] == name + [0x3D] + env[0][|name| + 1..];
      } else {
        EnvValueIsFirst(env[1..], name);
        assert forall i :: 0 < i < |env| ==> env[i] == env[1..][i - 1];
        var r := EnvValue(env, name);
        if r.Some? {
          var i :| 0 <= i < |env[1..]| && env[1..][i] == name + [0x3D] + r.value
                   && forall j | 0 <= j < i :: !(name + [0x3D] <= env[1..][j]);
          assert env[i + 1] == name + [0x3D] + r.value;
        }
      }
    }
  }

  method EnvGet(env: Option<seq<CStr>>, name: CStr) returns (r: Option<CStr>)
    ensures r == if env == None then None else EnvValue(env.value, name)
  {
    if env == None {
      return None;
    }
    hide EnvValue;
    var entries := env.value;
    assert entries[0..] == entries;
    for i := 0 to |entries|
      invariant EnvValue(entries, name) == EnvValue(entries[i..], name)
    {
      assert entries[i..] == [entries[i]] + entries[i + 1..];
      EnvStep(entries[i], entries[i + 1..], name);
      r := MatchEntry(entries[i], name);
      if r.Some? {
        return r;
      }
    }
    assert entries[|entries|..] == [];
    EnvNone(name);
    return None;
  }

  // The comparison of one entry, character by character.
  method MatchEntry(e: CStr, name: CStr) returns (r: Option<CStr>)
    ensures r == if Assigns(e, name) then Some(e[|name| + 1..]) else None
  {
    var j := 0;
    while j < |name| && j < |e| && e[j] == name[j]
      invariant 0 <= j <= |name| && j <= |e| && e[..j] == name[..j]
    {
      assert e[..j + 1] == e[..j] + [e[j]] && name[..j + 1] == name[..j] + [name[j]];
      j := j + 1;
    }
    if j == |name| && j < |e| && e[j] == EQUALS {
      assert e[..j + 1] == name + [EQUALS];
      return Some(e[j + 1..]);
    }
    MismatchAt(e, name, j);
    return None;
  }

  lemma EnvStep(e: CStr, env: seq<CStr>, name: CStr)
    ensures EnvValue([e] + env, name) == if Assigns(e, name) then Some(e[|name| + 1..]) else EnvValue(env, name)
  {
    assert ([e] + env)[1..] == env;
  }

  lemma EnvNone(name: CStr)
    ensures EnvValue([], name) == None
  {
  }

  lemma MismatchAt(e: CStr, name: CStr, j: nat)
    requires j <= |name| && j <= |e|
    requires j == |e| || (j < |name| && e[j] != name[j]) || (j == |name| && e[j] != EQUALS)
    ensures !Assigns(e, name)
  {
    var key := name + [EQUALS];
    assert key[j] == if j < |name| then name[j] else EQUALS;
  }

  // ----- Splitting PATH -----

  function Split(s: Bytes): (parts: seq<Bytes>)
    ensures |parts| > 0
    ensures forall p :: p in parts ==> COLON !in p
  {
    if s == [] then [[]]
    else
      var rest := Split(s[1..]);
      if s[0] == COLON then [[]] + rest else [[s[0]] + rest[0]] + rest[1..]
  }

  function Join(parts: seq<Bytes>): Bytes
    requires |parts| > 0
  {
    if |parts| == 1 then parts[0] else parts[0] + [COLON] + Join(parts[1..])
  }

  lemma {:induction false} SplitJoins(s: Bytes)
    ensures Join(Split(s)) == s
  {
    if s != [] {
      SplitJoins(s[1..]);
      var rest := Split(s[1..]);
      if s[0] == COLON {
        assert Split(s)[1..] == rest;
        assert [] + [COLON] + s[1..] == s;
      } else {
        assert Split(s)[1..] == rest[1..];
        assert s == [s[0]] + s[1..];
        if |rest| > 1 {
          assert [s[0]] + (rest[0] + [COLON] + Join(rest[1..])) == ([s[0]] + rest[0]) + [COLON] + Join(rest[1..]);
        }
      }
    }
  }

  // The directories of PATH in order; a trailing empty one is dropped.
  function Directories(path: Bytes): seq<Bytes> {
    var parts := Split(path);
    if parts[|parts| - 1] == [] then parts[..|parts| - 1] else parts
  }

  // The first component is what comes before the first colon.
  lemma {:induction false} FirstDirectory(s: Bytes, k: nat)
    requires k <= |s| && COLON !in s[..k] && (k < |s| ==> s[k] == COLON)
    ensures k == |s| ==> Split(s) == [s]
    ensures k < |s| ==> Split(s) == [s[..k]] + Split(s[k + 1..])
  {
    if k > 0 {
      assert s[0] == s[..k][0] && s[..k] == [s[0]] + s[1..][..k - 1];
      FirstDirectory(s[1..], k - 1);
      assert s == [s[0]] + s[1..];
      var rest := Split(s[1..]);
      if k < |s| {
        assert s[1..][k..] == s[k + 1..];
        assert rest[1..] == Split(s[k + 1..]);
      }
    }
  }

  // What is left of the directories after the first, seen from what is left of the string.
  lemma NextDirectory(s: Bytes, k: nat)
    requires s != []
    requires k <= |s| && COLON !in s[..k] && (k < |s| ==> s[k] == COLON)
    ensures Directories(s) == [s[..k]] + if k == |s| then [] else Directories(s[k + 1..])
  {
    hide Split;
    FirstDirectory(s, k);
    if k < |s| {
      var rest := Split(s[k + 1..]);
      assert Split(s)[..|rest|] == [s[..k]] + rest[..|rest| - 1];
    } else {
      assert s[..k] == s;
    }
  }

  // ----- The search -----

  function Candidate(dir: Bytes, name: Bytes): Bytes { dir + [SLASH] + name }

  function FirstHit(dirs: seq<Bytes>, name: Bytes, max: nat, accessible: Bytes -> bool): Option<Bytes> {
    if dirs == [] then None
    else if Hit(dirs[0], name, max, accessible) then Some(Candidate(dirs[0], name))
    else FirstHit(dirs[1..], name, max, accessible)
  }

  // It is the first directory whose joined path fits, with its NUL, below `max` bytes and is accessible.
  lemma {:induction false} FirstHitIsFirst(dirs: seq<Bytes>, name: Bytes, max: nat, accessible: Bytes -> bool)
    ensures var r := FirstHit(dirs, name, max, accessible);
            && (r == None <==> forall i | 0 <= i < |dirs| ::
                  |dirs[i]| + |name| + 2 < max ==> !accessible(dirs[i] + [0x2F] + name))
            && (r.Some? ==> exists i | 0 <= i < |dirs| ::
                  && r.value == dirs[i] + [0x2F] + name && |r.value| + 1 < max && accessible(r.value)
                  && forall j | 0 <= j < i :: |dirs[j]| + |name| + 2 < max ==> !accessible(dirs[j] + [0x2F] + name))
  {
    if dirs != [] {
      var rest := dirs[1..];
      FirstHitIsFirst(rest, name, max, accessible);
      assert forall i :: 0 < i < |dirs| ==> dirs[i] == rest[i - 1];
      var r := FirstHit(dirs, name, max, accessible);
      if Hit(dirs[0], name, max, accessible) {
        assert r.value == dirs[0] + [0x2F] + name;
      } else if r.Some? {
        var i :| 0 <= i < |rest|
                 && r.value == rest[i] + [0x2F] + name && |r.value| + 1 < max && accessible(r.value)
                 && forall j | 0 <= j < i :: |rest[j]| + |name| + 2 < max ==> !accessible(rest[j] + [0x2F] + name);
        assert r.value == dirs[i + 1] + [0x2F] + name;
      }
    }
  }

  predicate Hit(dir: Bytes, name: Bytes, max: nat, accessible: Bytes -> bool) {
    |dir| + 1 + |name| + 1 < max && accessible(Candidate(dir, name))
  }

  function SearchPath(env: Option<seq<CStr>>, name: CStr, max: nat, accessible: Bytes -> bool): Option<Bytes> {
    if env == None || EnvValue(env.value, PATH_NAME) == None then None
    else FirstHit(Directories(EnvValue(env.value, PATH_NAME).value), name, max, accessible)
  }

  // The directories searched are those of the first entry that starts with "PATH=".
  lemma SearchesPath(env: seq<CStr>, i: nat, path: Bytes, name: Bytes, max: nat, accessible: Bytes -> bool)
    requires i < |env| && env[i] == [0x50, 0x41, 0x54, 0x48, 0x3D] + path
    requires forall j | 0 <= j < i :: !([0x50, 0x41, 0x54, 0x48, 0x3D] <= env[j])
    ensures SearchPath(Some(env), name, max, accessible) == FirstHit(Directories(path), name, max, accessible)
  {
    hide EnvValue, Directories, FirstHit;
    var key := PATH_NAME + [0x3D];
    assert key == [0x50, 0x41, 0x54, 0x48, 0x3D];
    EnvValueIsFirst(env, PATH_NAME);
    assert key <= env[i];
    var value := EnvValue(env, PATH_NAME).value;
    var k :| 0 <= k < |env| && env[k] == key + value && forall j | 0 <= j < k :: !(key <= env[j]);
    assert key <= env[k];
    assert k == i && value == env[i][5..] == path;
  }

  lemma NothingToSearch(env: seq<CStr>, name: Bytes, max: nat, accessible: Bytes -> bool)
    requires forall j | 0 <= j < |env| :: !([0x50, 0x41, 0x54, 0x48, 0x3D] <= env[j])
    ensures SearchPath(Some(env), name, max, accessible) == None
  {
    hide EnvValue, Directories, FirstHit;
    assert PATH_NAME + [0x3D] == [0x50, 0x41, 0x54, 0x48, 0x3D];
    EnvValueIsFirst(env, PATH_NAME);
  }

  method FindInPath(name: CStr, out: array<byte>, env: Option<seq<CStr>>, accessible: Bytes -> bool) returns (r: int)
    modifies out
    ensures var found := SearchPath(env, name, out.Length, accessible);
            && r == (if found == None then -1 else 0)
            && (found.Some? ==>
                  && |found.value| < out.Length
                  && out[..|found.value|] == found.value && out[|found.value|] == NUL)
  {
    hide EnvValue, FirstHit, Directories;
    var path := EnvGet(env, PATH_NAME);
    if path == None {
      return -1;
    }
    var s := path.value;
    var start := 0;
    assert s[0..] == s;
    while start < |s|
      invariant 0 <= start <= |s|
      invariant FirstHit(Directories(s), name, out.Length, accessible)
             == FirstHit(Directories(s[start..]), name, out.Length, accessible)
    {
      var end := start;
      while end < |s| && s[end] != COLON
        invariant start <= end <= |s| && COLON !in s[start..end]
      {
        assert s[start..end + 1] == s[start..end] + [s[end]];
        end := end + 1;
      }
      ghost var dir := s[start..end];
      assert s[start..][..end - start] == dir;
      NextDirectory(s[start..], end - start);
      assert end < |s| ==> s[start..][end - start + 1..] == s[end + 1..];
      SearchStep(dir, if end == |s| then [] else Directories(s[end + 1..]), name, out.Length, accessible);
      var dirLen := end - start;
      if dirLen + 1 + |name| + 1 < out.Length {
        var text := WriteCandidate(s, start, end, name, out);
        if accessible(text) {
          return 0;
        }
      }
      if end == |s| {
        NothingLeft(name, out.Length, accessible);
        return -1;
      }
      start := end + 1;
    }
    assert s[start..] == [];
    NothingLeft(name, out.Length, accessible);
    return -1;
  }

  lemma SearchStep(dir: Bytes, dirs: seq<Bytes>, name: Bytes, max: nat, accessible: Bytes -> bool)
    ensures FirstHit([dir] + dirs, name, max, accessible)
         == if Hit(dir, name, max, accessible) then Some(Candidate(dir, name))
            else FirstHit(dirs, name, max, accessible)
  {
    assert ([dir] + dirs)[1..] == dirs;
  }

  lemma NothingLeft(name: Bytes, max: nat, accessible: Bytes -> bool)
    ensures Directories([]) == [] && FirstHit([], name, max, accessible) == None
  {
  }

  // Writes the joined path and its NUL; every write is inside the buffer.
  method WriteCandidate(s: Bytes, start: nat, end: nat, name: Bytes, out: array<byte>) returns (text: Bytes)
    requires start <= end <= |s| && end - start + 1 + |name| + 1 < out.Length
    modifies out
    ensures text == Candidate(s[start..end], name)
    ensures |text| < out.Length && out[..|text|] == text && out[|text|] == NUL
  {
    var k := 0;
    while k < end - start
      invariant 0 <= k <= end - start && out[..k] == s[start..start + k]
    {
      out[k] := s[start + k];
      assert out[..k + 1] == out[..k] + [out[k]];
      assert s[start..start + k + 1] == s[start..start + k] + [s[start + k]];
      k := k + 1;
    }
    out[k] := SLASH;
    ghost var base := out[..k + 1];
    assert base == s[start..end] + [SLASH];
    k := k + 1;
    var m := 0;
    while m < |name|
      invariant 0 <= m <= |name| && k == |base| + m && out[..k] == base + name[..m]
    {
      out[k] := name[m];
      assert out[..k + 1] == out[..k] + [out[k]];
      k, m := k + 1, m + 1;
    }
    out[k] := NUL;
    text := out[..k];
  }
}
