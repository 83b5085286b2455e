/**
 * What `utils/calendar.ts` uses of the browser's URLSearchParams: an ordered list of
 * name-value pairs, its `set` operation (section 6.2 of the WHATWG URL Standard), and
 * its `toString`, the application/x-www-form-urlencoded serializer (section 5.2) with
 * the UTF-8 percent-encoding it applies to every name and value. The urlencoded
 * parser of the same section is here as the serializer's inverse.
 */
module UrlQuery {

  type Byte = b: int | 0 <= b < 256

  // ---------------------------------------------------------------------------
  // UTF-8
  // ---------------------------------------------------------------------------

  /** The UTF-8 encoding of one Unicode scalar value. */
  function Utf8(c: char): (bs: seq<Byte>)
    ensures 1 <= |bs| <= 4
    ensures |bs| == 1 <==> c as int < 0x80
    ensures |bs| > 1 ==> 0xC0 <= bs[0]
    ensures forall i :: 1 <= i < |bs| ==> 0x80 <= bs[i] < 0xC0
  {
    var n := c as int;
    if n < 0x80 then [n]
    else if n < 0x800 then [0xC0 + n / 0x40, 0x80 + n % 0x40]
    else if n < 0x10000 then [0xE0 + n / 0x1000, 0x80 + (n / 0x40) % 0x40, 0x80 + n % 0x40]
    else [0xF0 + n / 0x40000, 0x80 + (n / 0x1000) % 0x40, 0x80 + (n / 0x40) % 0x40, 0x80 + n % 0x40]
  }

  /** The code point that a well-formed UTF-8 sequence of one to four bytes stands for. */
  function CodePoint(bs: seq<Byte>): int
    requires 1 <= |bs| <= 4
  {
    var b: seq<int> := bs;
    if |b| == 1 then b[0]
    else if |b| == 2 then (b[0] - 0xC0) * 0x40 + (b[1] - 0x80)
    else if |b| == 3 then ((b[0] - 0xE0) * 0x40 + (b[1] - 0x80)) * 0x40 + (b[2] - 0x80)
    else (((b[0] - 0xF0) * 0x40 + (b[1] - 0x80)) * 0x40 + (b[2] - 0x80)) * 0x40 + (b[3] - 0x80)
  }

  /** UTF-8 loses nothing: the bytes give back the character. */
  lemma Utf8Decodes(c: char)
    ensures CodePoint(Utf8(c)) == c as int
  {
    var n := c as int;
    if n >= 0x10000 {
      Regroup4(n);
    } else if n >= 0x800 {
      Regroup3(n);
    }
  }

  /** A number is its base-64 digits put back together; UTF-8 carries six bits per byte. */
  lemma Regroup3(n: int)
    requires n >= 0
    ensures n == (n / 0x1000 * 0x40 + (n / 0x40) % 0x40) * 0x40 + n % 0x40
  {
    var q := n / 0x40;
    assert n == q * 0x40 + n % 0x40;
    assert n / 0x1000 == q / 0x40;
    assert q == q / 0x40 * 0x40 + q % 0x40;
  }

  lemma Regroup4(n: int)
    requires n >= 0
    ensures n == ((n / 0x40000 * 0x40 + (n / 0x1000) % 0x40) * 0x40 + (n / 0x40) % 0x40) * 0x40 + n % 0x40
  {
    var q := n / 0x40;
    assert n == q * 0x40 + n % 0x40;
    assert n / 0x1000 == q / 0x40;
    assert n / 0x40000 == q / 0x1000;
    Regroup3(q);
  }

  function Utf8String(s: string): seq<Byte>
  {
    if s == [] then [] else Utf8(s[0]) + Utf8String(s[1..])
  }

  /** On ASCII text UTF-8 is the identity on code points. */
  lemma {:induction false} Utf8Ascii(s: string)
    requires forall i :: 0 <= i < |s| ==> s[i] as int < 0x80
    ensures |Utf8String(s)| == |s|
    ensures forall i :: 0 <= i < |s| ==> Utf8String(s)[i] == s[i] as int
  {
    if s != [] {
      Utf8Ascii(s[1..]);
    }
  }

  // ---------------------------------------------------------------------------
  // The application/x-www-form-urlencoded byte serializer
  // ---------------------------------------------------------------------------

  /** The bytes the urlencoded percent-encode set leaves alone: `*-._`, digits and letters. */
  predicate IsUnreserved(b: Byte)
  {
    b == 0x2A || b == 0x2D || b == 0x2E || b == 0x5F ||
    0x30 <= b <= 0x39 || 0x41 <= b <= 0x5A || 0x61 <= b <= 0x7A
  }

  /** Characters the serializer copies as they are: ASCII letters, digits and `*-._`. */
  predicate IsUnreservedChar(c: char)
  {
    c as int < 0x80 && IsUnreserved(c as int)
  }

  /** Every character the serializer can write. */
  predicate IsFormChar(c: char)
  {
    c == '+' || c == '%' || IsUnreservedChar(c)
  }

  predicate IsHex(c: char)
  {
    '0' <= c <= '9' || 'A' <= c <= 'F' || 'a' <= c <= 'f'
  }

  /** The upper-case hexadecimal digit that percent-encoding writes. */
  function HexDigit(d: int): (c: char)
    requires 0 <= d < 16
    ensures '0' <= c <= '9' || 'A' <= c <= 'F'
    ensures IsHex(c) && IsFormChar(c)
  {
    "0123456789ABCDEF"[d]
  }

  function HexValue(c: char): (d: int)
    requires IsHex(c)
    ensures 0 <= d < 16
  {
    if c <= '9' then c as int - '0' as int
    else if c <= 'F' then c as int - 'A' as int + 10
    else c as int - 'a' as int + 10
  }

  lemma HexRoundTrip(d: int)
    requires 0 <= d < 16
    ensures HexValue(HexDigit(d)) == d
  {
  }

  /** One byte: space becomes `+`, an unreserved byte stays, any other becomes `%XX`. */
  function EncodeByte(b: Byte): (t: string)
    ensures |t| == 1 || |t| == 3
    ensures t == "+" <==> b == 0x20
    ensures |t| == 1 <==> b == 0x20 || IsUnreserved(b)
    ensures |t| == 1 && b != 0x20 ==> t[0] as int == b
    ensures |t| == 3 ==> t[0] == '%' && IsHex(t[1]) && IsHex(t[2]) && HexValue(t[1]) * 16 + HexValue(t[2]) == b
    ensures forall i :: 0 <= i < |t| ==> IsFormChar(t[i])
  {
    if b == 0x20 then "+"
    else if IsUnreserved(b) then [b as char]
    else
      HexRoundTrip(b / 16);
      HexRoundTrip(b % 16);
      ['%', HexDigit(b / 16), HexDigit(b % 16)]
  }

  function EncodeBytes(bs: seq<Byte>): (t: string)
    ensures forall i :: 0 <= i < |t| ==> IsFormChar(t[i])
  {
    if bs == [] then [] else EncodeByte(bs[0]) + EncodeBytes(bs[1..])
  }

  /** A name or a value as the serializer writes it: no `&`, `=` or space survives. */
  function Encode(s: string): (t: string)
    ensures '&' !in t && '=' !in t && ' ' !in t
  {
    var t := EncodeBytes(Utf8String(s));
    assert forall i :: 0 <= i < |t| ==> IsFormChar(t[i]);
    t
  }

  lemma {:induction false} Utf8Append(a: string, b: string)
    ensures Utf8String(a + b) == Utf8String(a) + Utf8String(b)
  {
    if a == [] {
      assert a + b == b;
    } else {
      assert (a + b)[0] == a[0] && (a + b)[1..] == a[1..] + b;
      Utf8Append(a[1..], b);
    }
  }

  lemma {:induction false} EncodeBytesAppend(x: seq<Byte>, y: seq<Byte>)
    ensures EncodeBytes(x + y) == EncodeBytes(x) + EncodeBytes(y)
  {
    if x == [] {
      assert x + y == y;
    } else {
      assert (x + y)[0] == x[0] && (x + y)[1..] == x[1..] + y;
      EncodeBytesAppend(x[1..], y);
    }
  }

  /** The serializer works character by character. */
  lemma EncodeAppend(a: string, b: string)
    ensures Encode(a + b) == Encode(a) + Encode(b)
  {
    Utf8Append(a, b);
    EncodeBytesAppend(Utf8String(a), Utf8String(b));
  }

  /** Text made of unreserved characters comes out unchanged. */
  lemma {:induction false} EncodeUnreserved(s: string)
    requires forall i :: 0 <= i < |s| ==> IsUnreservedChar(s[i])
    ensures Encode(s) == s
  {
    if s != [] {
      EncodeUnreserved(s[1..]);
      EncodeAppend([s[0]], s[1..]);
      assert [s[0]] + s[1..] == s;
    }
  }

  // ---------------------------------------------------------------------------
  // The matching decoder: `+` to space, then percent-decoding
  // ---------------------------------------------------------------------------

  /**
   * The urlencoded parser's treatment of a name or value: `+` is a space, `%` followed by
   * two hexadecimal digits is that byte, anything else is its own UTF-8 encoding.
   */
  function DecodeBytes(t: string): seq<Byte>
    decreases |t|
  {
    if t == [] then []
    else if t[0] == '+' then [0x20] + DecodeBytes(t[1..])
    else if t[0] == '%' && |t| >= 3 && IsHex(t[1]) && IsHex(t[2]) then
      [HexValue(t[1]) * 16 + HexValue(t[2])] + DecodeBytes(t[3..])
    else Utf8(t[0]) + DecodeBytes(t[1..])
  }

  lemma DecodeEncodeByte(b: Byte, rest: string)
    ensures DecodeBytes(EncodeByte(b) + rest) == [b] + DecodeBytes(rest)
  {
    var t := EncodeByte(b) + rest;
    if b == 0x20 {
      assert t[1..] == rest;
    } else if IsUnreserved(b) {
      assert t[1..] == rest;
    } else {
      assert t[3..] == rest;
      HexRoundTrip(b / 16);
      HexRoundTrip(b % 16);
    }
  }

  /** Decoding undoes the byte serializer. */
  lemma {:induction false} DecodeEncodeBytes(bs: seq<Byte>)
    ensures DecodeBytes(EncodeBytes(bs)) == bs
  {
    if bs != [] {
      DecodeEncodeByte(bs[0], EncodeBytes(bs[1..]));
      DecodeEncodeBytes(bs[1..]);
    }
  }

  /** Decoding a serialized string gives back its UTF-8 bytes. */
  lemma DecodeEncode(s: string)
    ensures DecodeBytes(Encode(s)) == Utf8String(s)
  {
    DecodeEncodeBytes(Utf8String(s));
  }

  // ---------------------------------------------------------------------------
  // The list of pairs and its serialization
  // ---------------------------------------------------------------------------

  type Pair = (string, string)

  function SerializePair(p: Pair): string
  {
    Encode(p.0) + "=" + Encode(p.1)
  }

  /** The urlencoded serializer: each pair as `name=value`, pairs separated by `&`. */
  function Serialize(list: seq<Pair>): string
  {
    if |list| == 0 then ""
    else if |list| == 1 then SerializePair(list[0])
    else SerializePair(list[0]) + "&" + Serialize(list[1..])
  }

  /** `s.split(sep)`: the pieces between the separators, at least one. */
  function SplitOn(s: string, sep: char): (parts: seq<string>)
    ensures |parts| >= 1
    decreases |s|
  {
    if s == [] then [[]]
    else if s[0] == sep then [[]] + SplitOn(s[1..], sep)
    else
      var rest := SplitOn(s[1..], sep);
      [[s[0]] + rest[0]] + rest[1..]
  }

  /** The text before the first `sep` and the text after it; all of `s` and "" without one. */
  function BreakAtFirst(s: string, sep: char): (string, string)
    decreases |s|
  {
    if s == [] then ([], [])
    else if s[0] == sep then ([], s[1..])
    else
      var (a, b) := BreakAtFirst(s[1..], sep);
      ([s[0]] + a, b)
  }

  /** One piece of a query, as the urlencoded parser reads it. */
  function ParsePair(piece: string): (seq<Byte>, seq<Byte>)
  {
    var (name, value) := BreakAtFirst(piece, '=');
    (DecodeBytes(name), DecodeBytes(value))
  }

  function ParsePieces(pieces: seq<string>): seq<(seq<Byte>, seq<Byte>)>
  {
    if pieces == [] then []
    else (if pieces[0] == [] then [] else [ParsePair(pieces[0])]) + ParsePieces(pieces[1..])
  }

  /** The urlencoded parser: split on `&`, skip empty pieces, split each on its first `=`. */
  function ParseQuery(q: string): seq<(seq<Byte>, seq<Byte>)>
  {
    ParsePieces(SplitOn(q, '&'))
  }

  /** The pairs as UTF-8 bytes: what a parser of the serialized query must give back. */
  function Utf8Pairs(list: seq<Pair>): (r: seq<(seq<Byte>, seq<Byte>)>)
    ensures |r| == |list|
    ensures forall i :: 0 <= i < |list| ==> r[i] == (Utf8String(list[i].0), Utf8String(list[i].1))
  {
    if list == [] then [] else [(Utf8String(list[0].0), Utf8String(list[0].1))] + Utf8Pairs(list[1..])
  }

  lemma {:induction false} SplitWithout(p: string, sep: char)
    requires sep !in p
    ensures SplitOn(p, sep) == [p]
  {
    if p != [] {
      assert sep !in p[1..];
      SplitWithout(p[1..], sep);
      assert [p[0]] + p[1..] == p;
    }
  }

  lemma {:induction false} SplitAfter(p: string, t: string, sep: char)
    requires sep !in p
    ensures SplitOn(p + [sep] + t, sep) == [p] + SplitOn(t, sep)
  {
    if p == [] {
      assert p + [sep] + t == [sep] + t;
      assert ([sep] + t)[1..] == t;
    } else {
      assert (p + [sep] + t)[1..] == p[1..] + [sep] + t;
      SplitAfter(p[1..], t, sep);
      assert [p[0]] + p[1..] == p;
    }
  }

  lemma {:induction false} BreakAfter(a: string, b: string, sep: char)
    requires sep !in a
    ensures BreakAtFirst(a + [sep] + b, sep) == (a, b)
  {
    if a == [] {
      assert a + [sep] + b == [sep] + b;
      assert ([sep] + b)[1..] == b;
    } else {
      assert (a + [sep] + b)[1..] == a[1..] + [sep] + b;
      BreakAfter(a[1..], b, sep);
      assert [a[0]] + a[1..] == a;
    }
  }

  lemma ParseSerializedPair(p: Pair)
    ensures '&' !in SerializePair(p) && SerializePair(p) != []
    ensures ParsePair(SerializePair(p)) == (Utf8String(p.0), Utf8String(p.1))
  {
    var k, v := Encode(p.0), Encode(p.1);
    assert SerializePair(p) == k + ['='] + v;
    BreakAfter(k, v, '=');
    DecodeEncode(p.0);
    DecodeEncode(p.1);
  }

  /**
   * Splitting a serialized query on `&`, each piece on its first `=`, and decoding
   * gives back every pair, in order, as UTF-8 bytes.
   */
  lemma {:induction false} ParseSerialize(list: seq<Pair>)
    ensures ParseQuery(Serialize(list)) == Utf8Pairs(list)
  {
    if |list| == 0 {
    } else if |list| == 1 {
      var p := SerializePair(list[0]);
      ParseSerializedPair(list[0]);
      SplitWithout(p, '&');
      assert Serialize(list) == p;
      assert ParsePieces([p]) == [ParsePair(p)] + ParsePieces([p][1..]);
      assert [p][1..] == [];
    } else {
      var p := SerializePair(list[0]);
      ParseSerializedPair(list[0]);
      SplitAfter(p, Serialize(list[1..]), '&');
      assert p + "&" + Serialize(list[1..]) == p + ['&'] + Serialize(list[1..]);
      var pieces := [p] + SplitOn(Serialize(list[1..]), '&');
      assert pieces[1..] == SplitOn(Serialize(list[1..]), '&');
      ParseSerialize(list[1..]);
    }
  }

  // ---------------------------------------------------------------------------
  // URLSearchParams
  // ---------------------------------------------------------------------------

  function Keys(list: seq<Pair>): (ks: seq<string>)
    ensures |ks| == |list|
    ensures forall i :: 0 <= i < |list| ==> ks[i] == list[i].0
  {
    if list == [] then [] else [list[0].0] + Keys(list[1..])
  }

  /** The values stored under `name`, in order. */
  function ValuesOf(list: seq<Pair>, name: string): seq<string>
  {
    if list == [] then []
    else (if list[0].0 == name then [list[0].1] else []) + ValuesOf(list[1..], name)
  }

  lemma ValuesOfStep(list: seq<Pair>, k: nat, name: string)
    requires k < |list|
    ensures ValuesOf(list[k..], name)
         == (if list[k].0 == name then [list[k].1] else []) + ValuesOf(list[k + 1..], name)
  {
    assert list[k..][1..] == list[k + 1..];
  }

  /** The pairs whose name is not `name`, in order. */
  function Without(list: seq<Pair>, name: string): seq<Pair>
  {
    if list == [] then []
    else (if list[0].0 == name then [] else [list[0]]) + Without(list[1..], name)
  }

  /** The first pair named `name` takes the new value; the later ones are removed. */
  function ReplaceFirst(list: seq<Pair>, name: string, value: string): seq<Pair>
    requires name in Keys(list)
  {
    if list[0].0 == name then [(name, value)] + Without(list[1..], name)
    else
      assert Keys(list) == [list[0].0] + Keys(list[1..]);
      [list[0]] + ReplaceFirst(list[1..], name, value)
  }

  /** `URLSearchParams.prototype.set`: replace in place if the name is there, else append. */
  function SetParam(list: seq<Pair>, name: string, value: string): seq<Pair>
  {
    if name in Keys(list) then ReplaceFirst(list, name, value) else list + [(name, value)]
  }

  lemma {:induction false} AbsentName(list: seq<Pair>, name: string)
    requires name !in Keys(list)
    ensures ValuesOf(list, name) == [] && Without(list, name) == list
  {
    if list != [] {
      assert Keys(list) == [list[0].0] + Keys(list[1..]);
      AbsentName(list[1..], name);
    }
  }

  lemma {:induction false} WithoutRemoves(list: seq<Pair>, name: string)
    ensures ValuesOf(Without(list, name), name) == []
    ensures Without(Without(list, name), name) == Without(list, name)
  {
    if list != [] {
      WithoutRemoves(list[1..], name);
      var head := if list[0].0 == name then [] else [list[0]];
      Distribute(head, Without(list[1..], name), name);
    }
  }

  lemma {:induction false} Distribute(a: seq<Pair>, b: seq<Pair>, name: string)
    ensures ValuesOf(a + b, name) == ValuesOf(a, name) + ValuesOf(b, name)
    ensures Without(a + b, name) == Without(a, name) + Without(b, name)
  {
    DistributeValues(a, b, name);
    DistributeWithout(a, b, name);
  }

  lemma {:induction false} DistributeValues(a: seq<Pair>, b: seq<Pair>, name: string)
    ensures ValuesOf(a + b, name) == ValuesOf(a, name) + ValuesOf(b, name)
  {
    if a == [] {
      assert a + b == b;
    } else {
      var head := if a[0].0 == name then [a[0].1] else [];
      assert (a + b)[0] == a[0] && (a + b)[1..] == a[1..] + b;
      DistributeValues(a[1..], b, name);
      assert ValuesOf(a + b, name) == head + (ValuesOf(a[1..], name) + ValuesOf(b, name));
    }
  }

  lemma {:induction false} DistributeWithout(a: seq<Pair>, b: seq<Pair>, name: string)
    ensures Without(a + b, name) == Without(a, name) + Without(b, name)
  {
    if a == [] {
      assert a + b == b;
    } else {
      var head := if a[0].0 == name then [] else [a[0]];
      assert (a + b)[0] == a[0] && (a + b)[1..] == a[1..] + b;
      DistributeWithout(a[1..], b, name);
      assert Without(a + b, name) == head + (Without(a[1..], name) + Without(b, name));
    }
  }

  lemma {:induction false} ReplaceFirstSpec(list: seq<Pair>, name: string, value: string)
    requires name in Keys(list)
    ensures ValuesOf(ReplaceFirst(list, name, value), name) == [value]
    ensures Without(ReplaceFirst(list, name, value), name) == Without(list, name)
  {
    var rest := list[1..];
    if list[0].0 == name {
      WithoutRemoves(rest, name);
      Distribute([(name, value)], Without(rest, name), name);
    } else {
      assert Keys(list) == [list[0].0] + Keys(rest);
      ReplaceFirstSpec(rest, name, value);
      Distribute([list[0]], ReplaceFirst(rest, name, value), name);
    }
  }

  /**
   * After `set(name, value)` the name holds exactly that one value and every other pair
   * is there in its old order; a name that was absent is appended at the end.
   */
  lemma SetParamSpec(list: seq<Pair>, name: string, value: string)
    ensures ValuesOf(SetParam(list, name, value), name) == [value]
    ensures Without(SetParam(list, name, value), name) == Without(list, name)
    ensures name !in Keys(list) ==> SetParam(list, name, value) == list + [(name, value)]
  {
    if name in Keys(list) {
      ReplaceFirstSpec(list, name, value);
    } else {
      AbsentName(list, name);
      Distribute(list, [(name, value)], name);
    }
  }

  /** A URLSearchParams object: its list of pairs, which `set` changes in place. */
  class SearchParams {
    var list: seq<Pair>

    /** `new URLSearchParams(record)`: one pair per entry of the record, in order. */
    constructor (init: seq<Pair>)
      ensures list == init
    {
      list := init;
    }

    method Set(name: string, value: string)
      modifies this
      ensures list == SetParam(old(list), name, value)
      ensures ValuesOf(list, name) == [value]
      ensures Without(list, name) == Without(old(list), name)
    {
      SetParamSpec(list, name, value);
      list := SetParam(list, name, value);
    }

    function ToString(): string
      reads this
    {
      Serialize(list)
    }
  }
}
