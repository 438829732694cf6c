/** What base64 and hex text is by RFC 4648 itself: the alphabets as listed, the bits of each group, and which texts are
    read at all. */
module Rfc4648Text {
  import opened Common
  import opened Rfc4648

  // ----- Base64, sections 4 and 5 -----

  const UPPER := "ABCDEFGHIJKLMNOPQRSTUVWXYZ"
  const LOWER := "abcdefghijklmnopqrstuvwxyz"
  const STD_ALPHABET := UPPER + LOWER + "0123456789+/"
  const URL_ALPHABET := UPPER + LOWER + "0123456789-_"

  function Alphabet(e: Encoding): (s: string)
    ensures |s| == 64
  {
    if e.RawUrl? then URL_ALPHABET else STD_ALPHABET
  }

  lemma UpperIsListed(v: int)
    requires 0 <= v < 26
    ensures UPPER[v] == 'A' + v as char
  {
  }

  lemma LowerIsListed(v: int)
    requires 0 <= v < 26
    ensures LOWER[v] == 'a' + v as char
  {
  }

  /** The alphabets of RFC 4648, tables 1 and 2: each value is its own character, and each character its own value. */
  lemma AlphabetIsListed(e: Encoding, v: bits6)
    ensures Char(e, v) == Alphabet(e)[v] && Value(e, Alphabet(e)[v]) == v
  {
    if v < 26 {
      UpperIsListed(v);
    } else if v < 52 {
      LowerIsListed(v - 26);
    }
    CharReadsBack(e, v);
  }

  /** A character reads as a value exactly when it is listed. */
  lemma ValueIsListed(e: Encoding, c: char)
    ensures Value(e, c) >= 0 <==> c in Alphabet(e)
  {
    if Value(e, c) >= 0 {
      ValueIsOf(e, c);
      AlphabetIsListed(e, Value(e, c));
    }
    if c in Alphabet(e) {
      var v: bits6 :| Alphabet(e)[v] == c;
      AlphabetIsListed(e, v);
    }
  }

  /** Four sextets are the 24 bits of three bytes, first bits first. */
  lemma SextetsAreTheBits(a: byte, b: byte, c: byte)
    ensures var v := Sextets(a, b, c);
            v[0] * 262144 + v[1] * 4096 + v[2] * 64 + v[3] == a * 65536 + b * 256 + c
  {
  }

  function ByteAt(bs: seq<byte>, i: nat): byte {
    if i < |bs| then bs[i] else 0
  }

  lemma FourChars(e: Encoding, v: seq<int>)
    requires |v| == 4 && AreBits(v)
    ensures Chars(e, v) == [Char(e, v[0]), Char(e, v[1]), Char(e, v[2]), Char(e, v[3])]
  {
    assert v == [v[0]] + ([v[1]] + ([v[2]] + [v[3]]));
    CharsAppend(e, [v[0]], [v[1]] + ([v[2]] + [v[3]]));
    CharsAppend(e, [v[1]], [v[2]] + [v[3]]);
    CharsAppend(e, [v[2]], [v[3]]);
    assert forall i :: 0 <= i < 4 ==> Chars(e, [v[i]]) == [Char(e, v[i])];
  }

  /** Bytes are written as section 4 of the standard has it, group by group: the bits of three bytes, six to a
      character, first bits first, and then the rest of the bytes; a last group of two bytes or one zero-filled to three
      characters or two, and padded to four where the encoding pads. */
  lemma {:induction false} WrittenByGroups(e: Encoding, bs: seq<byte>) returns (v: seq<int>)
    ensures bs == [] ==> Encode(e, bs) == ""
    ensures |v| == 4 && AreBits(v)
    ensures v[0] * 262144 + v[1] * 4096 + v[2] * 64 + v[3]
            == ByteAt(bs, 0) * 65536 + ByteAt(bs, 1) * 256 + ByteAt(bs, 2)
    ensures |bs| == 1 ==> Encode(e, bs) == [Char(e, v[0]), Char(e, v[1])] + if e.Std? then "==" else ""
    ensures |bs| == 2 ==> Encode(e, bs) == [Char(e, v[0]), Char(e, v[1]), Char(e, v[2])] + if e.Std? then "=" else ""
    ensures |bs| >= 3 ==>
              Encode(e, bs)
              == [Char(e, v[0]), Char(e, v[1]), Char(e, v[2]), Char(e, v[3])] + Encode(e, bs[3..])
  {
    v := Sextets(ByteAt(bs, 0), ByteAt(bs, 1), ByteAt(bs, 2));
    SextetsAreTheBits(ByteAt(bs, 0), ByteAt(bs, 1), ByteAt(bs, 2));
    FourChars(e, v);
  }

  lemma JoinedAreTheBits(v: seq<int>)
    requires 2 <= |v| <= 4 && AreBits(v)
    ensures var b := Join(v);
            && (|v| == 2 ==> b[0] == (v[0] * 64 + v[1]) / 16)
            && (|v| == 3 ==> b[0] as int * 256 + b[1] as int == (v[0] * 4096 + v[1] * 64 + v[2]) / 4)
            && (|v| == 4 ==>
                  b[0] as int * 65536 + b[1] as int * 256 + b[2] as int
                  == v[0] * 262144 + v[1] * 4096 + v[2] * 64 + v[3])
  {
  }

  /** And read so: each group gives the bytes its bits spell, a short one without the four or two bits to spare,
      whatever they are, and what follows a whole one is read by itself. */
  lemma {:induction false} ReadByGroups(e: Encoding, q: string, t: string) returns (b: seq<byte>)
    requires 2 <= |q| <= 4 && InAlphabet(e, q)
    ensures |b| == |q| - 1
    ensures |q| == 2 ==>
              b[0] == (Value(e, q[0]) * 64 + Value(e, q[1])) / 16
              && DecodeGroups(e, q + if e.Std? then "==" else "") == Some(b)
    ensures |q| == 3 ==>
              b[0] as int * 256 + b[1] as int == (Value(e, q[0]) * 4096 + Value(e, q[1]) * 64 + Value(e, q[2])) / 4
              && DecodeGroups(e, q + if e.Std? then "=" else "") == Some(b)
    ensures |q| == 4 ==>
              && b[0] as int * 65536 + b[1] as int * 256 + b[2] as int
                 == Value(e, q[0]) * 262144 + Value(e, q[1]) * 4096 + Value(e, q[2]) * 64 + Value(e, q[3])
              && (DecodeGroups(e, t).Some? ==> DecodeGroups(e, q + t) == Some(b + DecodeGroups(e, t).value))
  {
    b := Bytes(e, q);
    var v := Values(e, q);
    assert forall i :: 0 <= i < |q| ==> v[i] == Value(e, q[i]);
    JoinedAreTheBits(v);
    if |q| <= 3 {
      ShortGroupDecodes(e, q);
    } else if DecodeGroups(e, t).Some? {
      WholeGroupDecodes(e, q, t, DecodeGroups(e, t).value);
    }
  }

  lemma StripFirst(c: char, s: string)
    ensures Strip([c] + s) == (if IsBreak(c) then "" else [c]) + Strip(s)
  {
    assert ([c] + s)[1..] == s;
  }

  lemma ConcatAssociates(a: string, b: string, c: string)
    ensures (a + b) + c == a + (b + c)
  {
  }

  lemma {:induction false} StripAppends(s: string, t: string)
    ensures Strip(s + t) == Strip(s) + Strip(t)
  {
    if s == "" {
      assert s + t == t;
    } else {
      var c, u := s[0], s[1..];
      assert s == [c] + u;
      StripAppends(u, t);
      ConcatAssociates([c], u, t);
      StripFirst(c, u);
      StripFirst(c, u + t);
      ConcatAssociates(if IsBreak(c) then "" else [c], Strip(u), Strip(t));
    }
  }

  /** Line breaks are read over, wherever they are. */
  lemma BreaksAreIgnored(e: Encoding, s: string, t: string, c: char)
    requires c in "\r\n"
    ensures Decode(e, s + ([c] + t)) == Decode(e, s + t)
  {
    StripAppends(s, [c] + t);
    StripAppends([c], t);
    StripAppends(s, t);
    assert Strip([c]) == "";
  }

  /** Characters of the alphabet, and then exactly `pad` of '='. */
  predicate IsPadded(e: Encoding, s: string, pad: nat) {
    pad <= |s| && InAlphabet(e, s[..|s| - pad]) && forall i :: |s| - pad <= i < |s| ==> s[i] == '='
  }

  /** The shape of a text without line breaks: unpadded, characters of the alphabet, not one over a whole number of
      fours; padded, whole fours of them, with at most two '=' for the last. */
  predicate WellShaped(e: Encoding, s: string) {
    if e.Std? then |s| % 4 == 0 && (IsPadded(e, s, 0) || IsPadded(e, s, 1) || IsPadded(e, s, 2))
    else |s| % 4 != 1 && IsPadded(e, s, 0)
  }

  lemma PaddedFromFour(e: Encoding, s: string, pad: nat)
    requires |s| >= 4 && InAlphabet(e, s[..4])
    ensures IsPadded(e, s, pad) <==> IsPadded(e, s[4..], pad)
  {
    var n, t := |s| - pad, s[4..];
    assert Value(e, s[..4][3]) >= 0 && Value(e, '=') == -1;
    if n >= 4 {
      assert s[..n] == s[..4] + t[..n - 4];
      assert forall i :: n <= i < |s| ==> s[i] == t[i - 4];
      assert forall i :: n - 4 <= i < |t| ==> t[i] == s[i + 4];
      PrefixInAlphabet(e, s[..4], t[..n - 4]);
    }
  }

  lemma PrefixInAlphabet(e: Encoding, s: string, t: string)
    ensures InAlphabet(e, s + t) <==> InAlphabet(e, s) && InAlphabet(e, t)
  {
    if InAlphabet(e, s + t) {
      assert forall i :: 0 <= i < |s| ==> s[i] == (s + t)[i];
      assert forall i :: 0 <= i < |t| ==> t[i] == (s + t)[|s| + i];
    }
  }

  lemma ShapedFromFour(e: Encoding, s: string)
    requires |s| >= 4 && InAlphabet(e, s[..4])
    ensures WellShaped(e, s) <==> WellShaped(e, s[4..])
  {
    PaddedFromFour(e, s, 0);
    PaddedFromFour(e, s, 1);
    PaddedFromFour(e, s, 2);
  }

  lemma LastFourExactly(s: string)
    requires |s| == 4 && !InAlphabet(Std, s[..4])
    ensures LastGroup(Std, s).Some? <==> IsPadded(Std, s, 1) || IsPadded(Std, s, 2)
  {
    assert s[2..] == [s[2], s[3]] && "==" == ['=', '='];
  }

  lemma LongerThanFour(e: Encoding, s: string, pad: nat)
    requires |s| >= 4 + pad && IsPadded(e, s, pad)
    ensures InAlphabet(e, s[..4])
  {
    assert s[..|s| - pad][..4] == s[..4];
  }

  lemma LastGroupExactly(e: Encoding, s: string)
    requires s != "" && !(|s| >= 4 && InAlphabet(e, s[..4]))
    ensures LastGroup(e, s).Some? <==> WellShaped(e, s)
  {
    if |s| < 4 {
      assert s[..|s|] == s;
    } else {
      if IsPadded(e, s, 0) {
        LongerThanFour(e, s, 0);
      }
      if e.Std? && |s| == 4 {
        LastFourExactly(s);
      } else if e.Std? && |s| % 4 == 0 && (IsPadded(e, s, 1) || IsPadded(e, s, 2)) {
        LongerThanFour(e, s, if IsPadded(e, s, 1) then 1 else 2);
      }
    }
  }

  lemma {:induction false} GroupsDecodeExactly(e: Encoding, s: string)
    ensures DecodeGroups(e, s).Some? <==> WellShaped(e, s)
  {
    if s == "" {
      assert IsPadded(e, s, 0);
    } else if |s| >= 4 && InAlphabet(e, s[..4]) {
      GroupsDecodeExactly(e, s[4..]);
      ShapedFromFour(e, s);
    } else {
      LastGroupExactly(e, s);
    }
  }

  /** Which texts decode: those of that shape once their line breaks are dropped. */
  lemma {:induction false} TextsExactly(e: Encoding, s: string)
    ensures Decode(e, s).Some? <==> WellShaped(e, Strip(s))
  {
    GroupsDecodeExactly(e, Strip(s));
  }

  // ----- Hex, section 8 -----

  const HEX_DIGITS := "0123456789abcdef"
  const HEX_UPPER := "0123456789ABCDEF"

  /** The sixteen digits, written in lower case and read in either. */
  lemma HexDigitsAreListed(v: int)
    requires 0 <= v < 16
    ensures HexDigit(v) == HEX_DIGITS[v] && Nibble(HEX_DIGITS[v]) == v && Nibble(HEX_UPPER[v]) == v
  {
  }

  lemma NibbleIsListed(c: char)
    ensures Nibble(c) >= 0 <==> c in HEX_DIGITS || c in HEX_UPPER
  {
  }

  /** A byte is its two digits, high one first. */
  lemma {:induction false} HexByteIsWritten(bs: seq<byte>, k: nat)
    requires k < |bs|
    ensures var s := HexEncode(bs);
            |s| == 2 * |bs| && s[2 * k] == HexDigit(bs[k] / 16) && s[2 * k + 1] == HexDigit(bs[k] % 16)
    decreases k
  {
    HexRoundTrip(bs);
    HexHasLength(HexEncode(bs));
    if k > 0 {
      var t := HexEncode(bs[1..]);
      HexByteIsWritten(bs[1..], k - 1);
      assert HexEncode(bs)[2..] == t;
      assert forall i :: 0 <= i < |t| ==> t[i] == HexEncode(bs)[i + 2];
    }
  }

  /** Which texts are hex: pairs of digits, of either case, and nothing else at all. */
  lemma HexTextsExactly(s: string)
    ensures HexDecode(s).Some? <==> |s| % 2 == 0 && forall i :: 0 <= i < |s| ==> s[i] in HEX_DIGITS || s[i] in HEX_UPPER
  {
    HexDecodesWhen(s);
    forall i | 0 <= i < |s| ensures Nibble(s[i]) >= 0 <==> s[i] in HEX_DIGITS || s[i] in HEX_UPPER {
      NibbleIsListed(s[i]);
    }
  }
}
