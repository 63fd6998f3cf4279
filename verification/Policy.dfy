/** Trust-policy lookup by glob pattern (`nexpack-core/src/signing.rs`). */
module Policy {
  import opened ByteCodec

  // ----- The glob matcher -----

  predicate WildMatch(p: string, t: string)
    decreases |p|
  {
    if p == [] then t == []
    else if p[0] == '*' then p[1..] == [] || exists i | 0 <= i <= |t| :: WildMatch(p[1..], t[i..])
    else t != [] && (p[0] == t[0] || p[0] == '?') && WildMatch(p[1..], t[1..])
  }

  method WildMatchRecursive(p: string, t: string) returns (r: bool)
    ensures r == WildMatch(p, t)
    decreases |p|
  {
    if p == [] {
      return t == [];
    }
    if p[0] == '*' {
      var rest := p[1..];
      if rest == [] {
        return true;
      }
      for i := 0 to |t| + 1
        invariant forall k | 0 <= k < i :: !WildMatch(rest, t[k..])
      {
        var here := WildMatchRecursive(rest, t[i..]);
        if here {
          return true;
        }
      }
      return false;
    }
    if t == [] {
      return false;
    }
    if p[0] == t[0] || p[0] == '?' {
      r := WildMatchRecursive(p[1..], t[1..]);
    } else {
      r := false;
    }
  }

  // One pattern character covers one piece of the text.
  predicate Covers(c: char, piece: string) {
    c == '*' || (|piece| == 1 && (c == '?' || c == piece[0]))
  }

  function Flatten(pieces: seq<string>): string {
    if pieces == [] then [] else pieces[0] + Flatten(pieces[1..])
  }

  ghost predicate SplitsInto(p: string, t: string, pieces: seq<string>) {
    |pieces| == |p| && Flatten(pieces) == t && forall i :: 0 <= i < |p| ==> Covers(p[i], pieces[i])
  }

  lemma StarMatch(p: string, t: string)
    requires p != [] && p[0] == '*'
    ensures WildMatch(p, t) <==> exists i | 0 <= i <= |t| :: WildMatch(p[1..], t[i..])
  {
    if p[1..] == [] {
      assert WildMatch(p[1..], t[|t|..]);
    }
  }

  // A match is a way to cut the text into one covered piece per pattern character.
  lemma MatchIsSplit(p: string, t: string)
    ensures WildMatch(p, t) <==> exists pieces :: SplitsInto(p, t, pieces)
  {
    if WildMatch(p, t) {
      var pieces := MatchSplits(p, t);
    }
    forall pieces | SplitsInto(p, t, pieces)
      ensures WildMatch(p, t)
    {
      SplitMatches(p, t, pieces);
    }
  }

  lemma {:induction false} MatchSplits(p: string, t: string) returns (pieces: seq<string>)
    requires WildMatch(p, t)
    ensures SplitsInto(p, t, pieces)
    decreases |p|
  {
    pieces := [];
    if p != [] {
      var i := 1;
      if p[0] == '*' {
        StarMatch(p, t);
        i :| 0 <= i <= |t| && WildMatch(p[1..], t[i..]);
      }
      var rest := MatchSplits(p[1..], t[i..]);
      pieces := [t[..i]] + rest;
      ConsPiece(p, t, i, rest);
    }
  }

  lemma ConsPiece(p: string, t: string, i: nat, rest: seq<string>)
    requires p != [] && i <= |t| && Covers(p[0], t[..i]) && SplitsInto(p[1..], t[i..], rest)
    ensures SplitsInto(p, t, [t[..i]] + rest)
  {
    hide Covers;
    var pieces := [t[..i]] + rest;
    assert pieces[1..] == rest && t == t[..i] + t[i..];
    forall j | 0 <= j < |p|
      ensures Covers(p[j], pieces[j])
    {
      if j > 0 {
        assert Covers(p[1..][j - 1], rest[j - 1]);
      }
    }
  }

  lemma {:induction false} SplitMatches(p: string, t: string, pieces: seq<string>)
    requires SplitsInto(p, t, pieces)
    ensures WildMatch(p, t)
    decreases |p|
  {
    if p != [] {
      var i := |pieces[0]|;
      assert t[i..] == Flatten(pieces[1..]) && t[..i] == pieces[0];
      SplitMatches(p[1..], t[i..], pieces[1..]);
      if p[0] == '*' {
        StarMatch(p, t);
      }
    }
  }

  // Patterns compose: `p + q` matches exactly the texts that split into a match of each.
  lemma {:induction false} ConcatMatch(p: string, q: string, t: string)
    ensures WildMatch(p + q, t) <==> exists k | 0 <= k <= |t| :: WildMatch(p, t[..k]) && WildMatch(q, t[k..])
  {
    hide WildMatch, SplitsInto;
    if WildMatch(p + q, t) {
      var k := ConcatSplit(p, q, t);
    }
    forall k | 0 <= k <= |t| && WildMatch(p, t[..k]) && WildMatch(q, t[k..])
      ensures WildMatch(p + q, t)
    {
      var a := MatchSplits(p, t[..k]);
      var b := MatchSplits(q, t[k..]);
      JoinPieces(p, q, t[..k], t[k..], a, b);
      assert t == t[..k] + t[k..];
      SplitMatches(p + q, t, a + b);
    }
  }

  lemma JoinPieces(p: string, q: string, s: string, t: string, a: seq<string>, b: seq<string>)
    requires SplitsInto(p, s, a) && SplitsInto(q, t, b)
    ensures SplitsInto(p + q, s + t, a + b)
  {
    hide Flatten, Covers;
    FlattenConcat(a, b);
  }

  lemma ConcatSplit(p: string, q: string, t: string) returns (k: nat)
    requires WildMatch(p + q, t)
    ensures k <= |t| && WildMatch(p, t[..k]) && WildMatch(q, t[k..])
  {
    hide WildMatch, SplitsInto;
    var pieces := MatchSplits(p + q, t);
    var a, b := CutPieces(p, q, t, pieces);
    k := |Flatten(a)|;
    assert t[..k] == Flatten(a) && t[k..] == Flatten(b);
    SplitMatches(p, t[..k], a);
    SplitMatches(q, t[k..], b);
  }

  lemma CutPieces(p: string, q: string, t: string, pieces: seq<string>) returns (a: seq<string>, b: seq<string>)
    requires SplitsInto(p + q, t, pieces)
    ensures t == Flatten(a) + Flatten(b)
    ensures SplitsInto(p, Flatten(a), a) && SplitsInto(q, Flatten(b), b)
  {
    hide Flatten, Covers;
    a, b := pieces[..|p|], pieces[|p|..];
    assert pieces == a + b;
    FlattenConcat(a, b);
    forall i | 0 <= i < |p|
      ensures Covers(p[i], a[i])
    {
      assert Covers((p + q)[i], pieces[i]);
    }
    forall i | 0 <= i < |q|
      ensures Covers(q[i], b[i])
    {
      assert Covers((p + q)[|p| + i], pieces[|p| + i]);
    }
  }

  lemma {:induction false} FlattenConcat(a: seq<string>, b: seq<string>)
    ensures Flatten(a + b) == Flatten(a) + Flatten(b)
  {
    if a == [] {
      assert a + b == b;
    } else {
      assert (a + b)[1..] == a[1..] + b;
      FlattenConcat(a[1..], b);
    }
  }

  // Every text matches itself as a pattern, even one that contains `*` or `?`.
  lemma {:induction false} SelfMatch(t: string)
    ensures WildMatch(t, t)
  {
    if t != [] {
      SelfMatch(t[1..]);
      if t[0] == '*' {
        StarMatch(t, t);
      }
    }
  }

  // ----- Policy lookup -----

  // The UTF-8 encoding of a character and of a text.
  function Utf8(c: char): Bytes {
    var n := c as int;
    if n < 0x80 then [n]
    else if n < 0x800 then [0xC0 + n / 0x40, 0x80 + n % 0x40]
    else if n < 0x1_0000 then [0xE0 + n / 0x1000, 0x80 + n / 0x40 % 0x40, 0x80 + n % 0x40]
    else [0xF0 + n / 0x4_0000, 0x80 + n / 0x1000 % 0x40, 0x80 + n / 0x40 % 0x40, 0x80 + n % 0x40]
  }

  function Utf8Text(s: string): Bytes { if s == [] then [] else Utf8(s[0]) + Utf8Text(s[1..]) }

  predicate IsTail(b: byte) { 0x80 <= b < 0xC0 }

  function Low(b: byte, base: int): int { b - base }

  // The first character of a text, as section 3 of RFC 3629 reads it; longer forms than needed are refused.
  function DecodeUtf8(b: Bytes): Option<(int, Bytes)> {
    if b == [] then None
    else if b[0] < 0x80 then Some((b[0], b[1..]))
    else if 0xC0 <= b[0] < 0xE0 && |b| >= 2 && IsTail(b[1]) then
      AtLeast(0x80, Low(b[0], 0xC0) * 0x40 + Low(b[1], 0x80), b[2..])
    else if 0xE0 <= b[0] < 0xF0 && |b| >= 3 && IsTail(b[1]) && IsTail(b[2]) then
      AtLeast(0x800, Low(b[0], 0xE0) * 0x1000 + Low(b[1], 0x80) * 0x40 + Low(b[2], 0x80), b[3..])
    else if 0xF0 <= b[0] < 0xF8 && |b| >= 4 && IsTail(b[1]) && IsTail(b[2]) && IsTail(b[3]) then
      AtLeast(0x1_0000, Low(b[0], 0xF0) * 0x4_0000 + Low(b[1], 0x80) * 0x1000 + Low(b[2], 0x80) * 0x40
                        + Low(b[3], 0x80), b[4..])
    else None
  }

  function AtLeast(least: int, n: int, rest: Bytes): Option<(int, Bytes)> {
    if n >= least then Some((n, rest)) else None
  }

  lemma Utf8RoundTrip(c: char, rest: Bytes)
    ensures DecodeUtf8(Utf8(c) + rest) == Some((c as int, rest))
  {
    var n, b := c as int, Utf8(c) + rest;
    assert b[|Utf8(c)|..] == rest;
    Digits64(n);
  }

  function DecodeText(b: Bytes): Option<seq<int>>
    decreases |b|
  {
    if b == [] then Some([])
    else
      match DecodeUtf8(b)
      case None => None
      case Some((n, rest)) =>
        DecodeShrinks(b);
        match DecodeText(rest)
        case None => None
        case Some(ns) => Some([n] + ns)
  }

  lemma DecodeShrinks(b: Bytes)
    ensures DecodeUtf8(b).Some? ==> |DecodeUtf8(b).value.1| < |b|
  {
  }

  function CodePoints(s: string): (ns: seq<int>)
    ensures |ns| == |s| && forall i :: 0 <= i < |s| ==> ns[i] == s[i] as int
  {
    seq(|s|, i requires 0 <= i < |s| => s[i] as int)
  }

  lemma {:induction false} Utf8TextRoundTrip(s: string)
    ensures DecodeText(Utf8Text(s)) == Some(CodePoints(s))
  {
    hide Utf8, DecodeUtf8;
    if s != [] {
      Utf8RoundTrip(s[0], Utf8Text(s[1..]));
      Utf8NotEmpty(s[0]);
      Utf8TextRoundTrip(s[1..]);
      assert CodePoints(s) == [s[0] as int] + CodePoints(s[1..]);
    }
  }

  lemma Utf8NotEmpty(c: char)
    ensures Utf8(c) != []
  {
  }

  lemma Digits64(n: int)
    requires 0 <= n
    ensures n == n / 0x40 * 0x40 + n % 0x40
    ensures n / 0x40 == n / 0x1000 * 0x40 + n / 0x40 % 0x40
    ensures n / 0x1000 == n / 0x4_0000 * 0x40 + n / 0x1000 % 0x40
  {
  }

  lemma NonEmptyLength(s: string)
    ensures |Utf8Text(s)| == 0 <==> s == []
  {
  }

  // For every order in which the map is walked: the exact key if there is one, otherwise a
  // matching pattern of greatest byte length, and nothing only when nothing matches.
  method MatchPolicy<T>(policy: map<string, T>, appId: string) returns (r: Option<(string, T)>)
    ensures appId in policy ==> r == Some((appId, policy[appId]))
    ensures r == None <==> forall p | p in policy :: !WildMatch(p, appId)
    ensures r.Some? ==> r.value.0 in policy && r.value.1 == policy[r.value.0] && WildMatch(r.value.0, appId)
    ensures r.Some? && appId !in policy ==>
              forall p | p in policy && WildMatch(p, appId) :: |Utf8Text(p)| <= |Utf8Text(r.value.0)|
  {
    SelfMatch(appId);
    if appId in policy {
      return Some((appId, policy[appId]));
    }
    var best: Option<(string, T)> := None;
    var bestLen := 0;
    var left := policy.Keys;
    while left != {}
      invariant left <= policy.Keys
      invariant best == None ==> bestLen == 0 && forall p | p in policy.Keys - left :: !WildMatch(p, appId)
      invariant best.Some? ==>
                  && best.value.0 in policy && best.value.1 == policy[best.value.0]
                  && WildMatch(best.value.0, appId) && bestLen == |Utf8Text(best.value.0)|
                  && forall p | p in policy.Keys - left && WildMatch(p, appId) :: |Utf8Text(p)| <= bestLen
      decreases left
    {
      var pattern :| pattern in left;
      left := left - {pattern};
      var matches := WildMatchRecursive(pattern, appId);
      if matches {
        NonEmptyLength(pattern);
        var len := |Utf8Text(pattern)|;
        if len > bestLen {
          best := Some((pattern, policy[pattern]));
          bestLen := len;
        }
      }
    }
    return best;
  }
}
