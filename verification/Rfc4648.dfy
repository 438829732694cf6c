/** Base64 and hex as Go's encoding/base64 and encoding/hex read and write them (RFC 4648, sections
    3.2, 4, 5 and 8): base64 text may hold line breaks and stray trailing bits, hex text may not. */
module Rfc4648 {
  import opened Common

  type bits6 = v: int | 0 <= v < 64

  /** StdEncoding, RawStdEncoding and RawURLEncoding. */
  datatype Encoding = Std | RawStd | RawUrl
  {
    predicate Padded() {
      Std?
    }
  }

  function Char(e: Encoding, v: bits6): char {
    if v < 26 then 'A' + v as char
    else if v < 52 then 'a' + (v - 26) as char
    else if v < 62 then '0' + (v - 52) as char
    else if v == 62 then if e.RawUrl? then '-' else '+'
    else if e.RawUrl? then '_' else '/'
  }

  /** A character's six bits, or -1 outside the alphabet. */
  function Value(e: Encoding, c: char): (v: int)
    ensures -1 <= v < 64
  {
    if 'A' <= c <= 'Z' then c as int - 'A' as int
    else if 'a' <= c <= 'z' then c as int - 'a' as int + 26
    else if '0' <= c <= '9' then c as int - '0' as int + 52
    else if c == (if e.RawUrl? then '-' else '+') then 62
    else if c == (if e.RawUrl? then '_' else '/') then 63
    else -1
  }

  predicate InAlphabet(e: Encoding, s: string) {
    forall i :: 0 <= i < |s| ==> Value(e, s[i]) >= 0
  }

  predicate IsBreak(c: char) {
    c == '\n' || c == '\r'
  }

  function Strip(s: string): string {
    if s == "" then "" else if IsBreak(s[0]) then Strip(s[1..]) else [s[0]] + Strip(s[1..])
  }

  // ----- Encoding -----

  function Sextets(a: byte, b: byte, c: byte): (vs: seq<int>)
    ensures |vs| == 4 && AreBits(vs)
  {
    [a / 4, a % 4 * 16 + b / 16, b % 16 * 4 + c / 64, c % 64]
  }

  function Chars(e: Encoding, vs: seq<int>): (s: string)
    requires AreBits(vs)
    ensures |s| == |vs|
  {
    if vs == [] then "" else [Char(e, vs[0])] + Chars(e, vs[1..])
  }

  function Quad(e: Encoding, a: byte, b: byte, c: byte): (q: string)
    ensures |q| == 4
  {
    Chars(e, Sextets(a, b, c))
  }

  /** What fills a short group of n characters. */
  function Padding(e: Encoding, n: nat): string {
    if !e.Padded() then "" else if n == 2 then "==" else "="
  }

  function Encode(e: Encoding, bs: seq<byte>): string {
    if bs == [] then ""
    else if |bs| == 1 then Quad(e, bs[0], 0, 0)[..2] + Padding(e, 2)
    else if |bs| == 2 then Quad(e, bs[0], bs[1], 0)[..3] + Padding(e, 3)
    else Quad(e, bs[0], bs[1], bs[2]) + Encode(e, bs[3..])
  }

  // ----- Decoding -----

  predicate AreBits(vs: seq<int>) {
    forall i :: 0 <= i < |vs| ==> 0 <= vs[i] < 64
  }

  /** The bytes of two, three or four sextets; a short group leaves its low bits aside. */
  function Join(vs: seq<int>): (bs: seq<byte>)
    requires 2 <= |vs| <= 4 && AreBits(vs)
    ensures |bs| == |vs| - 1
  {
    var b0: byte := vs[0] * 4 + vs[1] / 16;
    if |vs| == 2 then [b0]
    else
      var b1: byte := vs[1] % 16 * 16 + vs[2] / 4;
      if |vs| == 3 then [b0, b1] else [b0, b1, vs[2] % 4 * 64 + vs[3]]
  }

  function Values(e: Encoding, s: string): (vs: seq<int>)
    ensures |vs| == |s| && forall i :: 0 <= i < |s| ==> vs[i] == Value(e, s[i])
  {
    if s == "" then [] else [Value(e, s[0])] + Values(e, s[1..])
  }

  function Bytes(e: Encoding, q: string): (bs: seq<byte>)
    requires 2 <= |q| <= 4 && InAlphabet(e, q)
    ensures |bs| == |q| - 1
  {
    Join(Values(e, q))
  }

  /** What of the last group is characters, when it is a well-formed end. */
  function LastGroup(e: Encoding, s: string): Option<string> {
    var n := |s|;
    if e.Padded() then
      if n == 4 && s[2..] == "==" && InAlphabet(e, s[..2]) then Some(s[..2])
      else if n == 4 && s[3] == '=' && InAlphabet(e, s[..3]) then Some(s[..3])
      else None
    else if 2 <= n <= 3 && InAlphabet(e, s) then Some(s)
    else None
  }

  /** Text without line breaks, a group of four at a time. */
  function DecodeGroups(e: Encoding, s: string): Option<seq<byte>> {
    if s == "" then Some([])
    else if |s| >= 4 && InAlphabet(e, s[..4]) then
      var rest := DecodeGroups(e, s[4..]);
      if rest.None? then None else Some(Bytes(e, s[..4]) + rest.value)
    else
      var q := LastGroup(e, s);
      if q.None? then None else Some(Bytes(e, q.value))
  }

  function Decode(e: Encoding, s: string): Option<seq<byte>> {
    DecodeGroups(e, Strip(s))
  }

  // ----- Hex -----

  function HexDigit(v: int): char
    requires 0 <= v < 16
  {
    if v < 10 then '0' + v as char else 'a' + (v - 10) as char
  }

  function Nibble(c: char): (v: int)
    ensures -1 <= v < 16
  {
    if '0' <= c <= '9' then c as int - '0' as int
    else if 'a' <= c <= 'f' then c as int - 'a' as int + 10
    else if 'A' <= c <= 'F' then c as int - 'A' as int + 10
    else -1
  }

  function HexEncode(bs: seq<byte>): string {
    if bs == [] then "" else [HexDigit(bs[0] / 16), HexDigit(bs[0] % 16)] + HexEncode(bs[1..])
  }

  function HexDecode(s: string): Option<seq<byte>> {
    if s == "" then Some([])
    else if |s| == 1 || Nibble(s[0]) < 0 || Nibble(s[1]) < 0 then None
    else
      var rest := HexDecode(s[2..]);
      if rest.None? then None
      else
        var b: byte := Nibble(s[0]) * 16 + Nibble(s[1]);
        Some([b] + rest.value)
  }

  // ----- Round trips -----

  lemma CharReadsBack(e: Encoding, v: bits6)
    ensures Value(e, Char(e, v)) == v
  {
  }

  lemma {:induction false} CharsReadBack(e: Encoding, vs: seq<int>)
    requires AreBits(vs)
    ensures Values(e, Chars(e, vs)) == vs
  {
    if vs != [] {
      CharReadsBack(e, vs[0]);
      CharsReadBack(e, vs[1..]);
      assert Chars(e, vs)[1..] == Chars(e, vs[1..]);
    }
  }

  lemma SplitBy16(n: int, low: int)
    requires 0 <= low < 16
    ensures (n * 16 + low) / 16 == n && (n * 16 + low) % 16 == low
  {
  }

  lemma SplitBy4(n: int, low: int)
    requires 0 <= low < 4
    ensures (n * 4 + low) / 4 == n && (n * 4 + low) % 4 == low
  {
  }

  lemma SextetsJoin(a: byte, b: byte, c: byte)
    ensures Join(Sextets(a, b, c)) == [a, b, c]
    ensures c == 0 ==> Join(Sextets(a, b, c)[..3]) == [a, b]
    ensures b == 0 && c == 0 ==> Join(Sextets(a, b, c)[..2]) == [a]
  {
    SplitBy16(a % 4, b / 16);
    SplitBy4(b % 16, c / 64);
  }

  /** A group reads back, whole or short. */
  lemma QuadReadsBack(e: Encoding, a: byte, b: byte, c: byte)
    ensures var q := Quad(e, a, b, c);
            && InAlphabet(e, q)
            && Bytes(e, q) == [a, b, c]
            && (c == 0 ==> Bytes(e, q[..3]) == [a, b])
            && (b == 0 && c == 0 ==> Bytes(e, q[..2]) == [a])
  {
    var vs, q := Sextets(a, b, c), Quad(e, a, b, c);
    CharsReadBack(e, vs);
    assert Values(e, q) == vs;
    assert forall i :: 0 <= i < 4 ==> Values(e, q)[i] == Value(e, q[i]);
    assert Values(e, q[..3]) == vs[..3] && Values(e, q[..2]) == vs[..2];
    SextetsJoin(a, b, c);
  }

  lemma {:induction false} ShortGroupDecodes(e: Encoding, q: string)
    requires 2 <= |q| <= 3 && InAlphabet(e, q)
    ensures DecodeGroups(e, q + Padding(e, |q|)) == Some(Bytes(e, q))
  {
    var s := q + Padding(e, |q|);
    assert s[..|q|] == q;
    assert Value(e, q[|q| - 1]) >= 0 && q[|q| - 1] != '=';
    if e.Padded() {
      assert Value(e, s[..4][|q|]) < 0;
      assert |q| == 3 ==> s[2..][0] == q[2];
      assert |q| == 2 ==> s[2..] == "==";
    } else {
      assert s == q;
    }
    assert LastGroup(e, s) == Some(q);
  }

  lemma WholeGroupDecodes(e: Encoding, q: string, t: string, rest: seq<byte>)
    requires |q| == 4 && InAlphabet(e, q) && DecodeGroups(e, t) == Some(rest)
    ensures DecodeGroups(e, q + t) == Some(Bytes(e, q) + rest)
  {
    assert (q + t)[..4] == q && (q + t)[4..] == t;
  }

  lemma OneReadsBack(e: Encoding, a: byte)
    ensures DecodeGroups(e, Encode(e, [a])) == Some([a])
  {
    QuadReadsBack(e, a, 0, 0);
    ShortGroupDecodes(e, Quad(e, a, 0, 0)[..2]);
  }

  lemma TwoReadBack(e: Encoding, a: byte, b: byte)
    ensures DecodeGroups(e, Encode(e, [a, b])) == Some([a, b])
  {
    QuadReadsBack(e, a, b, 0);
    ShortGroupDecodes(e, Quad(e, a, b, 0)[..3]);
  }

  lemma ThreeReadBack(e: Encoding, a: byte, b: byte, c: byte, t: string, rest: seq<byte>)
    requires DecodeGroups(e, t) == Some(rest)
    ensures DecodeGroups(e, Quad(e, a, b, c) + t) == Some([a, b, c] + rest)
  {
    QuadReadsBack(e, a, b, c);
    WholeGroupDecodes(e, Quad(e, a, b, c), t, rest);
  }

  lemma {:induction false} GroupsReadBack(e: Encoding, bs: seq<byte>)
    ensures DecodeGroups(e, Encode(e, bs)) == Some(bs)
  {
    if |bs| == 1 {
      assert bs == [bs[0]];
      OneReadsBack(e, bs[0]);
    } else if |bs| == 2 {
      assert bs == [bs[0], bs[1]];
      TwoReadBack(e, bs[0], bs[1]);
    } else if bs != [] {
      GroupsReadBack(e, bs[3..]);
      ThreeReadBack(e, bs[0], bs[1], bs[2], Encode(e, bs[3..]), bs[3..]);
      assert bs == [bs[0], bs[1], bs[2]] + bs[3..];
    }
  }

  lemma {:induction false} StripOfUnbroken(s: string)
    requires forall i :: 0 <= i < |s| ==> !IsBreak(s[i])
    ensures Strip(s) == s
  {
    if s != "" {
      StripOfUnbroken(s[1..]);
    }
  }

  predicate Printable(e: Encoding, s: string) {
    forall i :: 0 <= i < |s| ==> Value(e, s[i]) >= 0 || s[i] == '='
  }

  lemma {:induction false} EncodedIsPrintable(e: Encoding, bs: seq<byte>)
    ensures Printable(e, Encode(e, bs))
  {
    if |bs| == 1 {
      QuadReadsBack(e, bs[0], 0, 0);
    } else if |bs| == 2 {
      QuadReadsBack(e, bs[0], bs[1], 0);
    } else if bs != [] {
      QuadReadsBack(e, bs[0], bs[1], bs[2]);
      EncodedIsPrintable(e, bs[3..]);
    }
  }

  /** Encoded bytes decode to themselves, and do so with line breaks put in anywhere. */
  lemma {:induction false} RoundTrip(e: Encoding, bs: seq<byte>, s: string)
    requires s == Encode(e, bs) || Strip(s) == Encode(e, bs)
    ensures Decode(e, s) == Some(bs)
  {
    GroupsReadBack(e, bs);
    EncodedIsPrintable(e, bs);
    StripOfUnbroken(Encode(e, bs));
  }

  lemma {:induction false} HexRoundTrip(bs: seq<byte>)
    ensures HexDecode(HexEncode(bs)) == Some(bs)
  {
    if bs != [] {
      HexRoundTrip(bs[1..]);
      assert HexEncode(bs)[2..] == HexEncode(bs[1..]);
      assert [bs[0]] + bs[1..] == bs;
    }
  }

  // ----- Exactly which texts decode -----

  /** The last sextet of a group of two or three, without the low bits that carry nothing. */
  function WithoutSpare(n: nat, v: int): int {
    if n == 2 then v - v % 16 else v - v % 4
  }

  function ClearLast(e: Encoding, q: string): string
    requires 2 <= |q| <= 3 && InAlphabet(e, q)
  {
    q[|q| - 1 := Char(e, WithoutSpare(|q|, Value(e, q[|q| - 1])))]
  }

  /** A text with those bits cleared; the text itself where it does not decode. */
  function Cleared(e: Encoding, s: string): string {
    if s == "" then ""
    else if |s| >= 4 && InAlphabet(e, s[..4]) then s[..4] + Cleared(e, s[4..])
    else
      var q := LastGroup(e, s);
      if q.None? then s else ClearLast(e, q.value) + Padding(e, |q.value|)
  }

  lemma ValueIsOf(e: Encoding, c: char)
    ensures Value(e, c) >= 0 ==> Char(e, Value(e, c)) == c
  {
  }

  lemma {:induction false} ValuesAreOf(e: Encoding, s: string)
    requires InAlphabet(e, s)
    ensures AreBits(Values(e, s)) && Chars(e, Values(e, s)) == s
  {
    if s != "" {
      ValueIsOf(e, s[0]);
      assert InAlphabet(e, s[1..]);
      ValuesAreOf(e, s[1..]);
    }
  }

  /** Joining and splitting again gives the sextets back, the last of a short group cleared. */
  lemma JoinSplits(vs: seq<int>)
    requires 2 <= |vs| <= 4 && AreBits(vs)
    ensures var bs := Join(vs);
            && (|vs| == 4 ==> Sextets(bs[0], bs[1], bs[2]) == vs)
            && (|vs| == 3 ==> Sextets(bs[0], bs[1], 0)[..3] == vs[..2] + [vs[2] - vs[2] % 4])
            && (|vs| == 2 ==> Sextets(bs[0], 0, 0)[..2] == vs[..1] + [vs[1] - vs[1] % 16])
  {
    SplitBy4(vs[0], vs[1] / 16);
    if |vs| >= 3 {
      SplitBy16(vs[1] % 16, vs[2] / 4);
    }
    if |vs| == 4 {
      SplitBy64(vs[2] % 4, vs[3]);
    }
  }

  lemma SplitBy64(n: int, low: int)
    requires 0 <= low < 64
    ensures (n * 64 + low) / 64 == n && (n * 64 + low) % 64 == low
  {
  }

  lemma {:induction false} CharsAppend(e: Encoding, vs: seq<int>, ws: seq<int>)
    requires AreBits(vs) && AreBits(ws)
    ensures AreBits(vs + ws) && Chars(e, vs + ws) == Chars(e, vs) + Chars(e, ws)
  {
    if vs == [] {
      assert vs + ws == ws;
    } else {
      CharsAppend(e, vs[1..], ws);
      assert (vs + ws)[1..] == vs[1..] + ws;
    }
  }

  lemma WholeGroupEncodesBack(e: Encoding, q: string)
    requires |q| == 4 && InAlphabet(e, q)
    ensures var bs := Bytes(e, q); Quad(e, bs[0], bs[1], bs[2]) == q
  {
    ValuesAreOf(e, q);
    JoinSplits(Values(e, q));
  }

  /** Sextets that begin as others but for the last of them are written alike but for that character. */
  lemma LastCharReplaced(e: Encoding, p: seq<int>, v: bits6, w: bits6, rest: seq<int>)
    requires AreBits(p) && AreBits(rest)
    ensures AreBits(p + [w] + rest) && AreBits(p + [v])
    ensures Chars(e, p + [w] + rest)[..|p| + 1] == Chars(e, p + [v])[|p| := Char(e, w)]
  {
    CharsAppend(e, p + [w], rest);
    CharsAppend(e, p, [w]);
    CharsAppend(e, p, [v]);
    assert Chars(e, [w]) == [Char(e, w)] && Chars(e, [v]) == [Char(e, v)];
  }

  lemma {:induction false} PrefixReplaced(e: Encoding, all: seq<int>, p: seq<int>, v: bits6, w: bits6)
    requires AreBits(p) && AreBits(all) && |p| < |all| && all[..|p| + 1] == p + [w]
    ensures AreBits(p + [v]) && Chars(e, all)[..|p| + 1] == Chars(e, p + [v])[|p| := Char(e, w)]
  {
    var rest := all[|p| + 1..];
    assert all == p + [w] + rest;
    LastCharReplaced(e, p, v, w, rest);
  }

  lemma OneIsWritten(e: Encoding, q: string, vs: seq<int>, a: byte, w: bits6)
    requires |vs| == 2 && AreBits(vs) && Chars(e, vs) == q && Sextets(a, 0, 0)[..2] == vs[..1] + [w]
    ensures Quad(e, a, 0, 0)[..2] == q[1 := Char(e, w)]
  {
    assert vs == vs[..1] + [vs[1]];
    PrefixReplaced(e, Sextets(a, 0, 0), vs[..1], vs[1], w);
  }

  lemma {:induction false} TwoAreWritten(e: Encoding, q: string, vs: seq<int>, a: byte, b: byte, w: bits6)
    requires |vs| == 3 && AreBits(vs) && Chars(e, vs) == q && Sextets(a, b, 0)[..3] == vs[..2] + [w]
    ensures Quad(e, a, b, 0)[..3] == q[2 := Char(e, w)]
  {
    assert vs == vs[..2] + [vs[2]];
    PrefixReplaced(e, Sextets(a, b, 0), vs[..2], vs[2], w);
  }

  lemma OneEncodesBack(e: Encoding, q: string) returns (a: byte)
    requires |q| == 2 && InAlphabet(e, q)
    ensures Bytes(e, q) == [a] && Quad(e, a, 0, 0)[..2] == ClearLast(e, q)
  {
    var vs, w := Values(e, q), Value(e, q[1]) - Value(e, q[1]) % 16;
    ValuesAreOf(e, q);
    a := OneSplits(vs, w);
    OneIsWritten(e, q, vs, a, w);
  }

  lemma OneSplits(vs: seq<int>, w: int) returns (a: byte)
    requires |vs| == 2 && AreBits(vs) && w == vs[1] - vs[1] % 16
    ensures Join(vs) == [a] && Sextets(a, 0, 0)[..2] == vs[..1] + [w]
  {
    JoinSplits(vs);
    a := Join(vs)[0];
  }

  lemma TwoEncodeBack(e: Encoding, q: string) returns (a: byte, b: byte)
    requires |q| == 3 && InAlphabet(e, q)
    ensures Bytes(e, q) == [a, b] && Quad(e, a, b, 0)[..3] == ClearLast(e, q)
  {
    var vs, w := Values(e, q), Value(e, q[2]) - Value(e, q[2]) % 4;
    ValuesAreOf(e, q);
    a, b := TwoSplit(vs, w);
    TwoAreWritten(e, q, vs, a, b, w);
  }

  lemma TwoSplit(vs: seq<int>, w: int) returns (a: byte, b: byte)
    requires |vs| == 3 && AreBits(vs) && w == vs[2] - vs[2] % 4
    ensures Join(vs) == [a, b] && Sextets(a, b, 0)[..3] == vs[..2] + [w]
  {
    JoinSplits(vs);
    a, b := Join(vs)[0], Join(vs)[1];
  }

  lemma {:induction false} DecodedEncodesBack(e: Encoding, s: string)
    ensures DecodeGroups(e, s).Some? ==> Encode(e, DecodeGroups(e, s).value) == Cleared(e, s)
    ensures DecodeGroups(e, s).None? ==> Cleared(e, s) == s
  {
    if s == "" {
    } else if |s| >= 4 && InAlphabet(e, s[..4]) {
      DecodedEncodesBack(e, s[4..]);
      WholeGroupEncodesBack(e, s[..4]);
      if DecodeGroups(e, s[4..]).Some? {
        WholeGroupGoesFirst(e, Bytes(e, s[..4]), DecodeGroups(e, s[4..]).value);
      }
    } else if LastGroup(e, s).Some? {
      var q := LastGroup(e, s).value;
      if |q| == 2 {
        var a := OneEncodesBack(e, q);
      } else {
        var a, b := TwoEncodeBack(e, q);
      }
    }
  }

  lemma WholeGroupGoesFirst(e: Encoding, group: seq<byte>, rest: seq<byte>)
    requires |group| == 3
    ensures Encode(e, group + rest) == Quad(e, group[0], group[1], group[2]) + Encode(e, rest)
  {
    assert (group + rest)[3..] == rest;
  }

  /** A text decodes to given bytes exactly when, line breaks dropped and spare bits cleared, it is their encoding. */
  lemma {:induction false} DecodesExactly(e: Encoding, s: string, bs: seq<byte>)
    ensures Decode(e, s) == Some(bs) <==> Cleared(e, Strip(s)) == Encode(e, bs)
  {
    DecodedEncodesBack(e, Strip(s));
    GroupsReadBack(e, bs);
    if Decode(e, s).Some? {
      GroupsReadBack(e, Decode(e, s).value);
    }
  }

  function LowerDigit(c: char): char {
    if 'A' <= c <= 'F' then c - 'A' + 'a' else c
  }

  function Lower(s: string): (t: string)
    ensures |t| == |s| && forall i :: 0 <= i < |s| ==> t[i] == LowerDigit(s[i])
  {
    if s == "" then "" else [LowerDigit(s[0])] + Lower(s[1..])
  }

  lemma {:induction false} HexDecodesWhen(s: string)
    ensures HexDecode(s).Some? <==> |s| % 2 == 0 && forall i :: 0 <= i < |s| ==> Nibble(s[i]) >= 0
  {
    if |s| >= 2 {
      HexDecodesWhen(s[2..]);
      assert forall i :: 2 <= i < |s| ==> s[i] == s[2..][i - 2];
    }
  }

  lemma DigitIsWritten(c: char)
    ensures Nibble(c) >= 0 ==> HexDigit(Nibble(c)) == LowerDigit(c)
    ensures Nibble(LowerDigit(c)) == Nibble(c)
  {
  }

  lemma {:induction false} HexEncodesBack(s: string)
    requires HexDecode(s).Some?
    ensures HexEncode(HexDecode(s).value) == Lower(s)
  {
    if s != "" {
      HexEncodesBack(s[2..]);
      DigitIsWritten(s[0]);
      DigitIsWritten(s[1]);
      SplitBy16(Nibble(s[0]), Nibble(s[1]));
      assert HexDecode(s).value[1..] == HexDecode(s[2..]).value;
      assert Lower(s) == [LowerDigit(s[0]), LowerDigit(s[1])] + Lower(s[2..]);
    }
  }

  /** A text is the hex of given bytes exactly when in lower case it is their encoding. */
  lemma {:induction false} HexDecodesExactly(s: string, bs: seq<byte>)
    ensures HexDecode(s) == Some(bs) <==> Lower(s) == HexEncode(bs)
  {
    HexRoundTrip(bs);
    forall i | 0 <= i < |s| ensures Nibble(Lower(s)[i]) == Nibble(s[i]) {
      DigitIsWritten(s[i]);
    }
    HexDecodesWhen(s);
    HexDecodesWhen(Lower(s));
    if HexDecode(s).Some? {
      HexEncodesBack(s);
      HexRoundTrip(HexDecode(s).value);
    }
  }

  // ----- A decoded length fixes the length of the text -----

  function TextLength(e: Encoding, n: nat): nat {
    if e.Padded() then (n + 2) / 3 * 4 else (n * 4 + 2) / 3
  }

  lemma LengthGrows(e: Encoding, n: nat)
    ensures TextLength(e, n + 3) == TextLength(e, n) + 4
  {
  }

  lemma LastGroupHasLength(e: Encoding, s: string)
    ensures LastGroup(e, s).Some? ==>
              2 <= |LastGroup(e, s).value| <= 3 && |s| == TextLength(e, |LastGroup(e, s).value| - 1)
  {
  }

  lemma {:induction false} GroupsHaveLength(e: Encoding, s: string)
    ensures DecodeGroups(e, s).Some? ==> |s| == TextLength(e, |DecodeGroups(e, s).value|)
  {
    if |s| >= 4 && InAlphabet(e, s[..4]) {
      GroupsHaveLength(e, s[4..]);
      var rest := DecodeGroups(e, s[4..]);
      if rest.Some? {
        LengthGrows(e, |rest.value|);
        assert |Bytes(e, s[..4]) + rest.value| == |rest.value| + 3;
      }
    } else {
      LastGroupHasLength(e, s);
    }
  }

  lemma {:induction false} PaddedTextIsWhole(s: string)
    ensures DecodeGroups(Std, s).Some? ==> |s| % 4 == 0
  {
    if |s| >= 4 && InAlphabet(Std, s[..4]) {
      PaddedTextIsWhole(s[4..]);
    }
  }

  lemma {:induction false} HexHasLength(s: string)
    ensures HexDecode(s).Some? ==> |s| == 2 * |HexDecode(s).value|
    ensures HexDecode(s).Some? ==> forall i :: 0 <= i < |s| ==> Nibble(s[i]) >= 0
  {
    if |s| >= 2 {
      HexHasLength(s[2..]);
    }
  }
}
