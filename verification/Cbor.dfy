/**
 The hand-written CBOR encoder of the test-bundle script (`build-test-bundle.py`), judged by a
 decoder written from RFC 8949 sections 3, 3.1 and 4.1.
 */
module Cbor {
  import opened ByteCodec

  // The Python values the encoder handles; a string is given by its UTF-8 bytes and a
  // dictionary by its items in order.
  datatype Value =
    | Null
    | Bool(b: bool)
    | Int(i: int)
    | Text(utf8: Bytes)
    | Blob(data: Bytes)
    | List(items: seq<Value>)
    | Dict(entries: seq<Item>)

  datatype Item = Item(key: Value, value: Value)

  // `ValueError` for a negative integer, `struct.error` for a number too wide for its field.
  datatype EncodeError = Negative | TooWide

  type Encoded = Result<Bytes, EncodeError>

  // ----- The encoder -----

  // The head that precedes `n` bytes, items or entries; `major` has its low five bits clear.
  function Prefix(major: byte, n: nat): Encoded
    requires major <= 0xA0
  {
    if n < 24 then Ok([major + n])
    else if n < 0x100 then Ok([major + 0x18, n])
    else if n < 0x1_0000 then Ok([major + 0x19] + Big(2, n))
    else if n < 0x1_0000_0000 then Ok([major + 0x1A] + Big(4, n))
    else Err(TooWide)
  }

  function EncodeInt(i: int): Encoded {
    if i < 0 then Err(Negative)
    else if i < 24 then Ok([i])
    else if i < 0x100 then Ok([0x18, i])
    else if i < 0x1_0000 then Ok([0x19] + Big(2, i))
    else if i < 0x1_0000_0000 then Ok([0x1A] + Big(4, i))
    else if i < 0x1_0000_0000_0000_0000 then Ok([0x1B] + Big(8, i))
    else Err(TooWide)
  }

  function Encode(v: Value): Encoded
    decreases v, 1
  {
    match v
    case Null => Ok([0xF6])
    case Bool(b) => Ok([if b then 0xF5 else 0xF4])
    case Int(i) => EncodeInt(i)
    case Text(utf8) =>
      var head :- Prefix(0x60, |utf8|);
      Ok(head + utf8)
    case Blob(data) =>
      var head :- Prefix(0x40, |data|);
      Ok(head + data)
    case List(items) =>
      var head :- Prefix(0x80, |items|);
      var body :- EncodeItems(items);
      Ok(head + body)
    case Dict(entries) =>
      var head :- Prefix(0xA0, |entries|);
      var body :- EncodeEntries(entries);
      Ok(head + body)
  }

  function EncodeItems(items: seq<Value>): Encoded
    decreases items, 0
  {
    if items == [] then Ok([])
    else
      var first :- Encode(items[0]);
      var rest :- EncodeItems(items[1..]);
      Ok(first + rest)
  }

  function EncodeEntries(entries: seq<Item>): Encoded
    decreases entries, 0
  {
    if entries == [] then Ok([])
    else
      var first :- EncodeItem(entries[0]);
      var rest :- EncodeEntries(entries[1..]);
      Ok(first + rest)
  }

  function EncodeItem(e: Item): Encoded
    decreases e, 2
  {
    var key :- Encode(e.key);
    var value :- Encode(e.value);
    Ok(key + value)
  }

  // The values inside the bounds of the encoder's fields, at every depth.
  predicate Encodable(v: Value)
    decreases v
  {
    match v
    case Null => true
    case Bool(_) => true
    case Int(i) => 0 <= i < U64_LIMIT
    case Text(utf8) => |utf8| < U32_LIMIT
    case Blob(data) => |data| < U32_LIMIT
    case List(items) => |items| < U32_LIMIT && forall x | x in items :: Encodable(x)
    case Dict(entries) => |entries| < U32_LIMIT && forall e | e in entries :: Encodable(e.key) && Encodable(e.value)
  }

  // ----- The decoder of RFC 8949 -----

  datatype Head = Head(major: nat, arg: nat, rest: Bytes)

  // The argument of section 3: in the initial byte, or in the 1, 2, 4 or 8 bytes after it.
  // With `preferred`, only the shortest form of section 4.1 is taken.
  function DecodeHead(preferred: bool, b: Bytes): (r: Option<Head>)
    ensures r.Some? ==> |r.value.rest| < |b| && r.value.major < 8
  {
    if b == [] then None
    else
      var major, info := b[0] / 32, b[0] % 32;
      if info < 24 then Some(Head(major, info, b[1..]))
      else if info == 24 then WideHead(preferred, b, 1, 24)
      else if info == 25 then WideHead(preferred, b, 2, 0x100)
      else if info == 26 then WideHead(preferred, b, 4, 0x1_0000)
      else if info == 27 then WideHead(preferred, b, 8, 0x1_0000_0000)
      else None
  }

  function WideHead(preferred: bool, b: Bytes, width: nat, least: nat): (r: Option<Head>)
    requires b != []
    ensures r.Some? ==> |r.value.rest| < |b| && r.value.major < 8
  {
    if |b| < 1 + width then None
    else
      var arg := FromBig(b[1..][..width]);
      if preferred && arg < least then None else Some(Head(b[0] / 32, arg, b[1..][width..]))
  }

  function Decode(preferred: bool, b: Bytes): (r: Option<(Value, Bytes)>)
    ensures r.Some? ==> |r.value.1| < |b|
    decreases |b|, 0
  {
    match DecodeHead(preferred, b)
    case None => None
    case Some(Head(major, arg, rest)) =>
      if major == 0 then Some((Int(arg), rest))
      else if major == 1 then Some((Int(-1 - arg), rest))
      else if major == 2 then if |rest| < arg then None else Some((Blob(rest[..arg]), rest[arg..]))
      else if major == 3 then if |rest| < arg then None else Some((Text(rest[..arg]), rest[arg..]))
      else if major == 4 then
        match DecodeItems(preferred, arg, rest)
        case None => None
        case Some((items, end)) => Some((List(items), end))
      else if major == 5 then
        match DecodeEntries(preferred, arg, rest)
        case None => None
        case Some((entries, end)) => Some((Dict(entries), end))
      else if b[0] == 0xF4 then Some((Bool(false), rest))
      else if b[0] == 0xF5 then Some((Bool(true), rest))
      else if b[0] == 0xF6 then Some((Null, rest))
      else None
  }

  function DecodeItems(preferred: bool, n: nat, b: Bytes): (r: Option<(seq<Value>, Bytes)>)
    ensures r.Some? ==> |r.value.1| <= |b| && |r.value.0| == n
    decreases |b|, 1
  {
    if n == 0 then Some(([], b))
    else
      match Decode(preferred, b)
      case None => None
      case Some((v, rest)) =>
        match DecodeItems(preferred, n - 1, rest)
        case None => None
        case Some((vs, end)) => Some(([v] + vs, end))
  }

  function DecodeEntries(preferred: bool, n: nat, b: Bytes): (r: Option<(seq<Item>, Bytes)>)
    ensures r.Some? ==> |r.value.1| <= |b| && |r.value.0| == n
    decreases |b|, 1
  {
    if n == 0 then Some(([], b))
    else
      match Decode(preferred, b)
      case None => None
      case Some((k, rest)) =>
        match Decode(preferred, rest)
        case None => None
        case Some((v, rest')) =>
          match DecodeEntries(preferred, n - 1, rest')
          case None => None
          case Some((es, end)) => Some(([Item(k, v)] + es, end))
  }

  // ----- Heads -----

  // The shortest head of section 4.1 for an argument of up to 64 bits.
  function ShortestHead(major: nat, n: u64): Bytes
    requires major < 8
  {
    if n < 24 then [32 * major + n]
    else if n < 0x100 then [32 * major + 24, n]
    else if n < 0x1_0000 then [32 * major + 25] + Big(2, n)
    else if n < 0x1_0000_0000 then [32 * major + 26] + Big(4, n)
    else [32 * major + 27] + Big(8, n)
  }

  lemma WideRoundTrip(preferred: bool, first: byte, width: nat, n: nat, least: nat, rest: Bytes)
    requires n < Pow256(width) && least <= n
    ensures WideHead(preferred, ([first] + Big(width, n)) + rest, width, least) == Some(Head(first / 32, n, rest))
  {
    hide Big, FromBig, Pow256;
    BigInverts(width, n);
    var b := ([first] + Big(width, n)) + rest;
    assert b[1..] == Big(width, n) + rest;
    assert b[1..][..width] == Big(width, n) && b[1..][width..] == rest;
  }

  lemma HeadRoundTrip(preferred: bool, major: nat, n: u64, rest: Bytes)
    requires major < 8
    ensures DecodeHead(preferred, ShortestHead(major, n) + rest) == Some(Head(major, n, rest))
  {
    hide Big, FromBig, Pow256, WideHead;
    Pow256Values();
    var b := ShortestHead(major, n) + rest;
    if n < 24 {
      assert b[1..] == rest;
    } else if n < 0x100 {
      OneByte(n);
      assert [32 * major + 24, n] == [32 * major + 24] + Big(1, n);
      WideRoundTrip(preferred, 32 * major + 24, 1, n, 24, rest);
    } else if n < 0x1_0000 {
      WideRoundTrip(preferred, 32 * major + 25, 2, n, 0x100, rest);
    } else if n < 0x1_0000_0000 {
      WideRoundTrip(preferred, 32 * major + 26, 4, n, 0x1_0000, rest);
    } else {
      WideRoundTrip(preferred, 32 * major + 27, 8, n, 0x1_0000_0000, rest);
    }
  }

  lemma OneByte(n: nat)
    requires n < 0x100
    ensures Big(1, n) == [n]
  {
    assert Big(0, n / 256) == [];
  }

  // No head that decodes to the same major type and argument takes fewer bytes.
  lemma HeadIsShortest(b: Bytes)
    requires DecodeHead(false, b).Some?
    ensures var h := DecodeHead(false, b).value;
            h.arg < U64_LIMIT && |ShortestHead(h.major, h.arg)| <= |b| - |h.rest|
  {
    hide Big, FromBig, Pow256;
    Pow256Values();
    var info := b[0] % 32;
    var width := if info < 24 then 0 else if info == 24 then 1 else if info == 25 then 2
                 else if info == 26 then 4 else 8;
    BigOnto(b[1..][..width]);
  }

  lemma WideIsCanonical(b: Bytes, width: nat, least: nat)
    requires b != [] && WideHead(true, b, width, least).Some?
    ensures var h := WideHead(true, b, width, least).value;
            least <= h.arg < Pow256(width) && b == ([b[0]] + Big(width, h.arg)) + h.rest
  {
    hide Big, FromBig, Pow256;
    var field, rest := b[1..][..width], b[1..][width..];
    BigOnto(field);
    assert b == [b[0]] + (field + rest);
    Assoc([b[0]], field, rest);
  }

  // A head taken in preferred form is the shortest one.
  lemma PreferredIsShortest(b: Bytes)
    requires DecodeHead(true, b).Some?
    ensures var h := DecodeHead(true, b).value;
            h.arg < U64_LIMIT && b == ShortestHead(h.major, h.arg) + h.rest
  {
    hide Big, FromBig, Pow256, WideHead;
    Pow256Values();
    var h := DecodeHead(true, b).value;
    var info := b[0] % 32;
    assert b[0] == 32 * (b[0] / 32) + info;
    if info < 24 {
      assert b == [b[0]] + b[1..];
    } else if info == 24 {
      WideIsCanonical(b, 1, 24);
      OneByte(h.arg);
      WideMajor(b, 1, 24);
      assert [b[0]] + [h.arg] == [b[0], h.arg];
    } else if info == 25 {
      WideIsCanonical(b, 2, 0x100);
      WideMajor(b, 2, 0x100);
    } else if info == 26 {
      WideIsCanonical(b, 4, 0x1_0000);
      WideMajor(b, 4, 0x1_0000);
    } else {
      WideIsCanonical(b, 8, 0x1_0000_0000);
      WideMajor(b, 8, 0x1_0000_0000);
    }
  }

  lemma WideMajor(b: Bytes, width: nat, least: nat)
    requires b != [] && WideHead(true, b, width, least).Some?
    ensures WideHead(true, b, width, least).value.major == b[0] / 32
  {
  }

  lemma PrefixIsShortest(major: nat, n: nat)
    requires major < 6
    ensures Prefix(32 * major, n) == if n < U32_LIMIT then Ok(ShortestHead(major, n)) else Err(TooWide)
  {
  }

  lemma IntIsShortest(i: int)
    ensures EncodeInt(i) == if i < 0 then Err(Negative)
                            else if i < U64_LIMIT then Ok(ShortestHead(0, i)) else Err(TooWide)
  {
  }

  // ----- When encoding succeeds -----

  lemma {:induction false} EncodesIffInBounds(v: Value)
    ensures Encode(v).Ok? <==> Encodable(v)
    decreases v, 1
  {
    hide Prefix, EncodeInt, ShortestHead;
    match v
    case Null =>
    case Bool(_) =>
    case Int(i) => IntIsShortest(i);
    case Text(utf8) => PrefixIsShortest(3, |utf8|);
    case Blob(data) => PrefixIsShortest(2, |data|);
    case List(items) =>
      PrefixIsShortest(4, |items|);
      ItemsEncodeIffInBounds(items);
    case Dict(entries) =>
      PrefixIsShortest(5, |entries|);
      EntriesEncodeIffInBounds(entries);
  }

  lemma {:induction false} ItemsEncodeIffInBounds(items: seq<Value>)
    ensures EncodeItems(items).Ok? <==> forall x | x in items :: Encodable(x)
    decreases items, 0
  {
    hide Encodable;
    if items != [] {
      EncodesIffInBounds(items[0]);
      ItemsEncodeIffInBounds(items[1..]);
      assert items == [items[0]] + items[1..];
    }
  }

  lemma {:induction false} EntriesEncodeIffInBounds(entries: seq<Item>)
    ensures EncodeEntries(entries).Ok? <==> forall e | e in entries :: Encodable(e.key) && Encodable(e.value)
    decreases entries, 0
  {
    hide Encodable, EncodeItem;
    if entries != [] {
      ItemEncodesIffInBounds(entries[0]);
      EntriesEncodeIffInBounds(entries[1..]);
      assert entries == [entries[0]] + entries[1..];
    }
  }

  lemma {:induction false} ItemEncodesIffInBounds(e: Item)
    ensures EncodeItem(e).Ok? <==> Encodable(e.key) && Encodable(e.value)
    decreases e, 2
  {
    hide Encode, Encodable;
    EncodesIffInBounds(e.key);
    EncodesIffInBounds(e.value);
  }

  // What is wrong with a value and its parts, in the order in which the encoder comes to them: a
  // count before the items, a key before its value.
  function Faults(v: Value): seq<EncodeError>
    decreases v, 1
  {
    match v
    case Null => []
    case Bool(_) => []
    case Int(i) => if i < 0 then [Negative] else if i >= U64_LIMIT then [TooWide] else []
    case Text(utf8) => CountFaults(|utf8|)
    case Blob(data) => CountFaults(|data|)
    case List(items) => CountFaults(|items|) + ItemFaults(items)
    case Dict(entries) => CountFaults(|entries|) + EntryFaults(entries)
  }

  function CountFaults(n: nat): seq<EncodeError> { if n >= U32_LIMIT then [TooWide] else [] }

  function ItemFaults(items: seq<Value>): seq<EncodeError>
    decreases items, 0
  {
    if items == [] then [] else Faults(items[0]) + ItemFaults(items[1..])
  }

  function EntryFaults(entries: seq<Item>): seq<EncodeError>
    decreases entries, 0
  {
    if entries == [] then [] else PairFaults(entries[0]) + EntryFaults(entries[1..])
  }

  function PairFaults(e: Item): seq<EncodeError>
    decreases e, 2
  {
    Faults(e.key) + Faults(e.value)
  }

  predicate FailsAtFirst(r: Encoded, faults: seq<EncodeError>) {
    if faults == [] then r.Ok? else r == Err(faults[0])
  }

  // Encoding fails with the first thing that is wrong.
  lemma {:induction false} EncodeFailsAtFirst(v: Value)
    ensures FailsAtFirst(Encode(v), Faults(v))
    decreases v, 1
  {
    hide Prefix, EncodeInt, ShortestHead;
    match v
    case Null =>
    case Bool(_) =>
    case Int(i) => IntIsShortest(i);
    case Text(utf8) => PrefixIsShortest(3, |utf8|);
    case Blob(data) => PrefixIsShortest(2, |data|);
    case List(items) =>
      PrefixIsShortest(4, |items|);
      ItemsFailAtFirst(items);
    case Dict(entries) =>
      PrefixIsShortest(5, |entries|);
      EntriesFailAtFirst(entries);
  }

  lemma {:induction false} ItemsFailAtFirst(items: seq<Value>)
    ensures FailsAtFirst(EncodeItems(items), ItemFaults(items))
    decreases items, 0
  {
    hide Encode, Faults;
    if items != [] {
      EncodeFailsAtFirst(items[0]);
      ItemsFailAtFirst(items[1..]);
    }
  }

  lemma {:induction false} EntriesFailAtFirst(entries: seq<Item>)
    ensures FailsAtFirst(EncodeEntries(entries), EntryFaults(entries))
    decreases entries, 0
  {
    hide Encode, Faults, EncodeItem, PairFaults;
    if entries != [] {
      PairFailsAtFirst(entries[0]);
      EntriesFailAtFirst(entries[1..]);
    }
  }

  lemma {:induction false} PairFailsAtFirst(e: Item)
    ensures FailsAtFirst(EncodeItem(e), PairFaults(e))
    decreases e, 2
  {
    hide Encode, Faults;
    EncodeFailsAtFirst(e.key);
    EncodeFailsAtFirst(e.value);
  }

  // ----- Decoding inverts encoding -----

  lemma {:induction false} RoundTrip(preferred: bool, v: Value, rest: Bytes)
    requires Encodable(v)
    ensures Encode(v).Ok? && Decode(preferred, Encode(v).value + rest) == Some((v, rest))
    decreases v, 1
  {
    hide Prefix, EncodeInt, ShortestHead, DecodeHead, EncodeItems, EncodeEntries, DecodeItems, DecodeEntries;
    EncodesIffInBounds(v);
    match v
    case Null => SimpleRoundTrip(preferred, 0xF6, rest);
    case Bool(b) => SimpleRoundTrip(preferred, if b then 0xF5 else 0xF4, rest);
    case Int(i) =>
      IntIsShortest(i);
      HeadRoundTrip(preferred, 0, i, rest);
    case Text(utf8) =>
      PrefixIsShortest(3, |utf8|);
      StringRoundTrip(preferred, 3, utf8, rest);
    case Blob(data) =>
      PrefixIsShortest(2, |data|);
      StringRoundTrip(preferred, 2, data, rest);
    case List(items) =>
      PrefixIsShortest(4, |items|);
      var body := EncodeItems(items).value;
      Assoc(ShortestHead(4, |items|), body, rest);
      HeadRoundTrip(preferred, 4, |items|, body + rest);
      ItemsRoundTrip(preferred, items, rest);
    case Dict(entries) =>
      PrefixIsShortest(5, |entries|);
      var body := EncodeEntries(entries).value;
      Assoc(ShortestHead(5, |entries|), body, rest);
      HeadRoundTrip(preferred, 5, |entries|, body + rest);
      EntriesRoundTrip(preferred, entries, rest);
  }

  lemma SimpleRoundTrip(preferred: bool, first: byte, rest: Bytes)
    requires 0xF4 <= first <= 0xF6
    ensures DecodeHead(preferred, [first] + rest) == Some(Head(7, first - 0xE0, rest))
  {
    assert ([first] + rest)[1..] == rest;
  }

  lemma StringRoundTrip(preferred: bool, major: nat, data: Bytes, rest: Bytes)
    requires major < 8 && |data| < U32_LIMIT
    ensures DecodeHead(preferred, (ShortestHead(major, |data|) + data) + rest) == Some(Head(major, |data|, data + rest))
    ensures (data + rest)[..|data|] == data && (data + rest)[|data|..] == rest
  {
    hide ShortestHead, DecodeHead;
    Assoc(ShortestHead(major, |data|), data, rest);
    HeadRoundTrip(preferred, major, |data|, data + rest);
  }

  lemma {:induction false} ItemsRoundTrip(preferred: bool, items: seq<Value>, rest: Bytes)
    requires forall x | x in items :: Encodable(x)
    ensures EncodeItems(items).Ok?
    ensures DecodeItems(preferred, |items|, EncodeItems(items).value + rest) == Some((items, rest))
    decreases items, 0
  {
    hide Encode, Decode, Encodable;
    ItemsEncodeIffInBounds(items);
    if items == [] {
      assert [] + rest == rest;
    } else {
      var body := EncodeItems(items[1..]).value;
      Assoc(Encode(items[0]).value, body, rest);
      RoundTrip(preferred, items[0], body + rest);
      ItemsRoundTrip(preferred, items[1..], rest);
      assert items == [items[0]] + items[1..];
    }
  }

  lemma {:induction false} EntriesRoundTrip(preferred: bool, entries: seq<Item>, rest: Bytes)
    requires forall e | e in entries :: Encodable(e.key) && Encodable(e.value)
    ensures EncodeEntries(entries).Ok?
    ensures DecodeEntries(preferred, |entries|, EncodeEntries(entries).value + rest) == Some((entries, rest))
    decreases entries, 0
  {
    hide Encode, Decode, Encodable, EncodeItem;
    EntriesEncodeIffInBounds(entries);
    if entries == [] {
      assert [] + rest == rest;
    } else {
      var body := EncodeEntries(entries[1..]).value;
      Assoc(EncodeItem(entries[0]).value, body, rest);
      ItemRoundTrip(preferred, entries[0], body + rest);
      EntriesRoundTrip(preferred, entries[1..], rest);
      assert entries == [entries[0]] + entries[1..];
    }
  }

  lemma {:induction false} ItemRoundTrip(preferred: bool, e: Item, rest: Bytes)
    requires Encodable(e.key) && Encodable(e.value)
    ensures EncodeItem(e).Ok?
    ensures var k := Decode(preferred, EncodeItem(e).value + rest);
            && k.Some? && k.value.0 == e.key
            && Decode(preferred, k.value.1) == Some((e.value, rest))
    decreases e, 2
  {
    hide Encode, Decode, Encodable;
    ItemEncodesIffInBounds(e);
    var k, v := Encode(e.key).value, Encode(e.value).value;
    Assoc(k, v, rest);
    RoundTrip(preferred, e.key, v + rest);
    RoundTrip(preferred, e.value, rest);
  }

  // No encoding is a prefix of another, and equal encodings are of equal values.
  lemma PrefixFree(v: Value, w: Value, r: Bytes, s: Bytes)
    requires Encodable(v) && Encodable(w)
    requires Encode(v).Ok? && Encode(w).Ok? && Encode(v).value + r == Encode(w).value + s
    ensures v == w && r == s
  {
    hide Encode, Decode, Encodable;
    RoundTrip(true, v, r);
    RoundTrip(true, w, s);
  }

  // ----- Encoding inverts decoding in preferred form -----

  lemma {:induction false} Canonical(b: Bytes)
    requires Decode(true, b).Some? && Encodable(Decode(true, b).value.0)
    ensures var (v, rest) := Decode(true, b).value;
            Encode(v).Ok? && b == Encode(v).value + rest
    decreases |b|, 0
  {
    hide Prefix, EncodeInt, ShortestHead, DecodeHead, EncodeItems, EncodeEntries, DecodeItems, DecodeEntries;
    var Head(major, arg, body) := DecodeHead(true, b).value;
    var (v, rest) := Decode(true, b).value;
    PreferredIsShortest(b);
    if major == 0 {
      IntIsShortest(arg);
    } else if major == 2 || major == 3 {
      PrefixIsShortest(major, arg);
      assert body == body[..arg] + body[arg..];
      Assoc(ShortestHead(major, arg), body[..arg], body[arg..]);
    } else if major == 4 {
      PrefixIsShortest(4, arg);
      ItemsCanonical(arg, body);
      Assoc(ShortestHead(4, arg), EncodeItems(v.items).value, rest);
    } else if major == 5 {
      PrefixIsShortest(5, arg);
      EntriesCanonical(arg, body);
      Assoc(ShortestHead(5, arg), EncodeEntries(v.entries).value, rest);
    } else {
      SimpleHead(b);
    }
  }

  lemma SimpleHead(b: Bytes)
    requires b != [] && 0xF4 <= b[0] <= 0xF6 && DecodeHead(true, b).Some?
    ensures b == [b[0]] + DecodeHead(true, b).value.rest
  {
  }

  lemma {:induction false} ItemsCanonical(n: nat, b: Bytes)
    requires DecodeItems(true, n, b).Some? && forall x | x in DecodeItems(true, n, b).value.0 :: Encodable(x)
    ensures var (items, rest) := DecodeItems(true, n, b).value;
            EncodeItems(items).Ok? && b == EncodeItems(items).value + rest
    decreases |b|, 1
  {
    hide Encode, Decode, Encodable;
    var (items, rest) := DecodeItems(true, n, b).value;
    if n == 0 {
      assert b == [] + rest;
    } else {
      var (v, b1) := Decode(true, b).value;
      var (vs, _) := DecodeItems(true, n - 1, b1).value;
      assert items == [v] + vs && items[0] == v && items[1..] == vs;
      assert forall x :: x in vs ==> x in items;
      Canonical(b);
      ItemsCanonical(n - 1, b1);
      Assoc(Encode(v).value, EncodeItems(vs).value, rest);
    }
  }

  lemma {:induction false} EntriesCanonical(n: nat, b: Bytes)
    requires DecodeEntries(true, n, b).Some?
    requires forall e | e in DecodeEntries(true, n, b).value.0 :: Encodable(e.key) && Encodable(e.value)
    ensures var (entries, rest) := DecodeEntries(true, n, b).value;
            EncodeEntries(entries).Ok? && b == EncodeEntries(entries).value + rest
    decreases |b|, 1
  {
    hide Encode, Decode, Encodable;
    var (entries, rest) := DecodeEntries(true, n, b).value;
    if n == 0 {
      assert b == [] + rest;
    } else {
      var (k, b1) := Decode(true, b).value;
      var (v, b2) := Decode(true, b1).value;
      var (es, _) := DecodeEntries(true, n - 1, b2).value;
      assert entries == [Item(k, v)] + es && entries[0] == Item(k, v) && entries[1..] == es;
      assert forall e :: e in es ==> e in entries;
      Canonical(b);
      Canonical(b1);
      EntriesCanonical(n - 1, b2);
      var kb, vb, body := Encode(k).value, Encode(v).value, EncodeEntries(es).value;
      Assoc(kb + vb, body, rest);
      Assoc(kb, vb, body + rest);
    }
  }

  // The encoder's output is the one preferred encoding of the value: what a decoder that takes
  // only shortest heads reads as `v` is `Encode(v)`, and `Encode(v)` is so read.
  lemma EncodesPreferred(v: Value, b: Bytes, rest: Bytes)
    requires Encodable(v)
    ensures Encode(v).Ok?
    ensures Decode(true, b) == Some((v, rest)) <==> b == Encode(v).value + rest
  {
    hide Encode, Decode, Encodable;
    RoundTrip(true, v, rest);
    if Decode(true, b) == Some((v, rest)) {
      Canonical(b);
    }
  }
}
