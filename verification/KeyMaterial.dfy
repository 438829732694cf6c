/** Device keys and signatures in three encodings: proof.go. */
module KeyMaterial {
  import opened Common
  import opened Rfc4648

  const PUBLIC_KEY_SIZE := 32
  const SIGNATURE_SIZE := 64

  datatype Form = StdForm | UrlForm | HexForm

  function Read(f: Form, s: string): Option<seq<byte>> {
    match f
    case StdForm => Decode(Std, s)
    case UrlForm => Decode(RawUrl, s)
    case HexForm => HexDecode(s)
  }

  function Write(f: Form, bs: seq<byte>): string {
    match f
    case StdForm => Encode(Std, bs)
    case UrlForm => Encode(RawUrl, bs)
    case HexForm => HexEncode(bs)
  }

  predicate Hits(f: Form, s: string, want: nat) {
    Read(f, s).Some? && |Read(f, s).value| == want
  }

  /** The bytes of the first decoder, in the order tried, that yields the wanted size. */
  function FirstOf(order: seq<Form>, s: string, want: nat): Option<seq<byte>> {
    if order == [] then None
    else if Hits(order[0], s, want) then Read(order[0], s)
    else FirstOf(order[1..], s, want)
  }

  const TRIED := [StdForm, UrlForm, HexForm]

  function Material(s: string, want: nat): Option<seq<byte>> {
    if s == "" then None else FirstOf(TRIED, s, want)
  }

  /** The three decoders, one after the other. */
  lemma FirstOfThree(s: string, want: nat)
    ensures var std, url, hex := Decode(Std, s), Decode(RawUrl, s), HexDecode(s);
            FirstOf(TRIED, s, want)
            == if std.Some? && |std.value| == want then std
               else if url.Some? && |url.value| == want then url
               else if hex.Some? && |hex.value| == want then hex
               else None
  {
    assert TRIED[1..] == [UrlForm, HexForm] && TRIED[1..][1..] == [HexForm] && [HexForm][1..] == [];
    assert FirstOf([HexForm], s, want) == if Hits(HexForm, s, want) then HexDecode(s) else None;
    assert FirstOf(TRIED[1..], s, want)
        == if Hits(UrlForm, s, want) then Decode(RawUrl, s) else FirstOf([HexForm], s, want);
  }

  method DecodeKeyMaterial(s: string, want: nat) returns (r: Option<seq<byte>>)
    ensures r == Material(s, want)
    ensures var std, url, hex := Decode(Std, s), Decode(RawUrl, s), HexDecode(s);
            r == if s == "" then None
                 else if std.Some? && |std.value| == want then std
                 else if url.Some? && |url.value| == want then url
                 else if hex.Some? && |hex.value| == want then hex
                 else None
  {
    FirstOfThree(s, want);
    if s == "" {
      return None;
    }
    for i := 0 to |TRIED|
      invariant FirstOf(TRIED, s, want) == FirstOf(TRIED[i..], s, want)
    {
      var b := Read(TRIED[i], s);
      if b.Some? && |b.value| == want {
        return b;
      }
      assert TRIED[i..][1..] == TRIED[i + 1..];
    }
    return None;
  }

  // ----- One reading at most -----

  /** A decoded size fixes the length of the text in each form. */
  function LengthIn(f: Form, n: nat): nat {
    match f
    case StdForm => TextLength(Std, n)
    case UrlForm => TextLength(RawUrl, n)
    case HexForm => 2 * n
  }

  lemma HitHasLength(f: Form, s: string, want: nat)
    requires Hits(f, s, want)
    ensures |Strip(s)| == LengthIn(f, want)
  {
    match f
    case StdForm => GroupsHaveLength(Std, Strip(s));
    case UrlForm => GroupsHaveLength(RawUrl, Strip(s));
    case HexForm =>
      HexHasLength(s);
      StripOfUnbroken(s);
  }

  lemma GroupAgrees(q: string)
    requires |q| == 4 && InAlphabet(Std, q) && InAlphabet(RawUrl, q)
    ensures Bytes(Std, q) == Bytes(RawUrl, q)
  {
    assert forall i :: 0 <= i < 4 ==> Value(Std, q[i]) == Value(RawUrl, q[i]);
    assert Values(Std, q) == Values(RawUrl, q);
  }

  /** A text of four or more characters whose fourth is no padding starts with a whole group. */
  lemma StartsWhole(e: Encoding, s: string)
    requires |s| >= 4 && DecodeGroups(e, s).Some? && (e.Padded() ==> s[3] != '=')
    ensures InAlphabet(e, s[..4]) && DecodeGroups(e, s[4..]).Some? && s[3] != '='
    ensures DecodeGroups(e, s) == Some(Bytes(e, s[..4]) + DecodeGroups(e, s[4..]).value)
  {
    assert s[2..] == "==" ==> s[2..][1] == s[3];
    assert Value(e, s[..4][3]) >= 0;
  }

  lemma {:induction false} GroupsAgree(s: string)
    requires DecodeGroups(Std, s).Some? && DecodeGroups(RawUrl, s).Some? && |s| >= 4
    ensures DecodeGroups(Std, s[4..]).Some? && DecodeGroups(RawUrl, s[4..]).Some?
    ensures DecodeGroups(Std, s[4..]) == DecodeGroups(RawUrl, s[4..])
            ==> DecodeGroups(Std, s) == DecodeGroups(RawUrl, s)
  {
    StartsWhole(RawUrl, s);
    StartsWhole(Std, s);
    GroupAgrees(s[..4]);
  }

  type Decoder = string -> Option<seq<byte>>

  /** The decoders agree on a text whenever they agree on what follows its first four characters. */
  predicate AgreeByFour(d: Decoder, e: Decoder, s: string) {
    |s| >= 4 && d(s).Some? && e(s).Some? ==>
      d(s[4..]).Some? && e(s[4..]).Some? && (d(s[4..]) == e(s[4..]) ==> d(s) == e(s))
  }

  lemma {:induction false} AgreementSpreads(d: Decoder, e: Decoder, s: string)
    requires d("") == e("") && forall t :: AgreeByFour(d, e, t)
    requires d(s).Some? && e(s).Some? && |s| % 4 == 0
    ensures d(s) == e(s)
    decreases |s|
  {
    if s != "" {
      assert AgreeByFour(d, e, s);
      AgreementSpreads(d, e, s[4..]);
    }
  }

  /** Text that both base64 alphabets read in whole groups is read alike by both. */
  lemma {:induction false} AlphabetsAgree(s: string)
    requires DecodeGroups(Std, s).Some? && DecodeGroups(RawUrl, s).Some? && |s| % 4 == 0
    ensures DecodeGroups(Std, s) == DecodeGroups(RawUrl, s)
  {
    var d, e := (s: string) => DecodeGroups(Std, s), (s: string) => DecodeGroups(RawUrl, s);
    forall t ensures AgreeByFour(d, e, t) {
      if |t| >= 4 && d(t).Some? && e(t).Some? {
        GroupsAgree(t);
      }
    }
    AgreementSpreads(d, e, s);
  }

  /** Hex text of two bytes or more is no base64 text of as many: only two bytes in padded base64 are as
      long, and those end in '='. */
  lemma HexIsNotBase64(g: Form, s: string, want: nat)
    requires Hits(HexForm, s, want) && !g.HexForm? && want != 1 && s != ""
    ensures !Hits(g, s, want)
  {
    HexHasLength(s);
    StripOfUnbroken(s);
    if Hits(g, s, want) {
      HitHasLength(g, s, want);
      assert |s| == 2 * want == LengthIn(g, want);
      assert forall i :: 0 <= i < 4 ==> Value(Std, s[i]) >= 0;
      StartsWhole(Std, s);
    }
  }

  /** Two forms that both read a text to one size read the same bytes, unless that size is one. */
  lemma {:induction false} HitsAgree(f: Form, g: Form, s: string, want: nat)
    requires Hits(f, s, want) && Hits(g, s, want) && want != 1 && s != ""
    ensures Read(f, s) == Read(g, s)
  {
    if f.HexForm? && !g.HexForm? {
      HexIsNotBase64(g, s, want);
    } else if g.HexForm? && !f.HexForm? {
      HexIsNotBase64(f, s, want);
    } else if f != g {
      PaddedTextIsWhole(Strip(s));
      AlphabetsAgree(Strip(s));
    }
  }

  /** At the sizes of a key and a signature no text is read by two of the forms. */
  lemma {:induction false} OneFormAtMost(f: Form, g: Form, s: string, want: nat)
    requires want == PUBLIC_KEY_SIZE || want == SIGNATURE_SIZE
    requires Hits(f, s, want) && Hits(g, s, want)
    ensures f == g
  {
    HitHasLength(f, s, want);
    HitHasLength(g, s, want);
  }

  // ----- The order of the trials -----

  /** Whichever order tries a form that hits first, it answers with that form's reading. */
  lemma {:induction false} FirstOfAHit(order: seq<Form>, f: Form, s: string, want: nat)
    requires f in order && Hits(f, s, want) && want != 1 && s != ""
    ensures FirstOf(order, s, want) == Read(f, s)
  {
    if Hits(order[0], s, want) {
      HitsAgree(order[0], f, s, want);
    } else {
      FirstOfAHit(order[1..], f, s, want);
    }
  }

  lemma {:induction false} FirstOfNoHit(order: seq<Form>, s: string, want: nat)
    requires forall f :: !Hits(f, s, want)
    ensures FirstOf(order, s, want) == None
  {
    if order != [] {
      FirstOfNoHit(order[1..], s, want);
    }
  }

  predicate Complete(order: seq<Form>) {
    StdForm in order && UrlForm in order && HexForm in order
  }

  lemma {:induction false} OrdersAgree(order: seq<Form>, s: string, want: nat)
    requires Complete(order) && want != 1 && s != ""
    ensures FirstOf(order, s, want) == FirstOf(TRIED, s, want)
  {
    if f :| Hits(f, s, want) {
      FirstOfAHit(order, f, s, want);
      FirstOfAHit(TRIED, f, s, want);
    } else {
      FirstOfNoHit(order, s, want);
      FirstOfNoHit(TRIED, s, want);
    }
  }

  /** A text as its form would write it: line breaks dropped and spare bits cleared, or in lower case. */
  function Normal(f: Form, s: string): string {
    match f
    case StdForm => Cleared(Std, Strip(s))
    case UrlForm => Cleared(RawUrl, Strip(s))
    case HexForm => Lower(s)
  }

  lemma {:induction false} ReadExactly(f: Form, s: string, bs: seq<byte>)
    ensures Read(f, s) == Some(bs) <==> Normal(f, s) == Write(f, bs)
  {
    match f
    case StdForm => DecodesExactly(Std, s, bs);
    case UrlForm => DecodesExactly(RawUrl, s, bs);
    case HexForm => HexDecodesExactly(s, bs);
  }

  /** A text is key material of the wanted size exactly when, in its normal spelling, it is the encoding of
      that many bytes in one of the three forms. */
  lemma {:induction false} MaterialExactly(s: string, want: nat, bs: seq<byte>)
    requires want != 1
    ensures Material(s, want) == Some(bs) <==> s != "" && |bs| == want && exists f :: Normal(f, s) == Write(f, bs)
  {
    forall f ensures Normal(f, s) == Write(f, bs) <==> Read(f, s) == Some(bs) {
      ReadExactly(f, s, bs);
    }
    MaterialIsRead(s, want, bs);
  }

  lemma MaterialIsRead(s: string, want: nat, bs: seq<byte>)
    requires want != 1
    ensures Material(s, want) == Some(bs) <==> s != "" && |bs| == want && exists f :: Read(f, s) == Some(bs)
  {
    if f :| Hits(f, s, want) && s != "" {
      FirstOfAHit(TRIED, f, s, want);
      forall g | Read(g, s) == Some(bs) && |bs| == want ensures Read(f, s) == Some(bs) {
        HitsAgree(f, g, s, want);
      }
    } else if s != "" {
      FirstOfNoHit(TRIED, s, want);
      forall f | Read(f, s) == Some(bs) ensures |bs| != want {
        assert !Hits(f, s, want);
      }
    }
  }

  /** The order of the trial loop matters for no text exactly when the wanted size is not one. */
  lemma OrderMattersOnlyForOneByte(want: nat)
    ensures want != 1 <==>
            forall order, s :: Complete(order) && s != "" ==> FirstOf(order, s, want) == FirstOf(TRIED, s, want)
  {
    if want == 1 {
      AmbiguousByte();
    } else {
      forall order, s | Complete(order) && s != "" ensures FirstOf(order, s, want) == FirstOf(TRIED, s, want) {
        OrdersAgree(order, s, want);
      }
    }
  }

  /** "ab" is one byte in raw base64url and another in hex. */
  lemma AmbiguousByte()
    ensures FirstOf([HexForm, UrlForm, StdForm], "ab", 1) == Some([0xab])
    ensures FirstOf(TRIED, "ab", 1) == Some([0x69])
  {
    var s := "ab";
    StripOfUnbroken(s);
    assert s[2..] == "";
    assert HexDecode(s[2..]) == Some([]);
    assert [0xab] + [] == [0xab];
    assert Nibble(s[0]) == 10 && Nibble(s[1]) == 11;
    assert Read(HexForm, s) == Some([0xab]);
    assert InAlphabet(RawUrl, s) && Values(RawUrl, s) == [26, 27];
    assert Read(UrlForm, s) == Some([0x69]);
    assert Read(StdForm, s) == None;
    assert FirstOf(TRIED, s, 1) == FirstOf(TRIED[1..], s, 1);
  }

  // ----- Round trips -----

  lemma {:induction false} WrittenIsRead(f: Form, bs: seq<byte>)
    ensures Read(f, Write(f, bs)) == Some(bs)
  {
    match f
    case StdForm => RoundTrip(Std, bs, Write(f, bs));
    case UrlForm => RoundTrip(RawUrl, bs, Write(f, bs));
    case HexForm => HexRoundTrip(bs);
  }

  /** Bytes of any size but none and one, in any of the three forms, decode back to themselves. */
  lemma {:induction false} EveryFormDecodes(f: Form, bs: seq<byte>)
    requires |bs| >= 2
    ensures Material(Write(f, bs), |bs|) == Some(bs)
  {
    WrittenIsRead(f, bs);
    var s := Write(f, bs);
    assert s != "";
    FirstOfAHit(TRIED, f, s, |bs|);
  }

  // ----- Device proofs -----

  /** Ed25519 verification of a signature over a message (RFC 8032). */
  type Ed25519 = (seq<byte>, string, seq<byte>) -> bool

  datatype Proof = Valid | ProofInvalid | KeyUnusable

  method VerifyDeviceProof(ed25519: Ed25519, publicKey: string, nonce: string, signature: string) returns (r: Proof)
    ensures r == KeyUnusable <==> Material(publicKey, 32).None?
    ensures r == Valid <==> && Material(publicKey, 32).Some? && Material(signature, 64).Some?
                            && ed25519(Material(publicKey, 32).value, nonce, Material(signature, 64).value)
    ensures r == ProofOf(ed25519, publicKey, nonce, signature)
  {
    var pub := DecodeKeyMaterial(publicKey, PUBLIC_KEY_SIZE);
    if pub.None? {
      return KeyUnusable;
    }
    var sig := DecodeKeyMaterial(signature, SIGNATURE_SIZE);
    if sig.None? {
      return ProofInvalid;
    }
    if !ed25519(pub.value, nonce, sig.value) {
      return ProofInvalid;
    }
    return Valid;
  }

  method IsPublicKeyMaterial(s: string) returns (ok: bool)
    ensures ok <==> Material(s, 32).Some?
  {
    var b := DecodeKeyMaterial(s, PUBLIC_KEY_SIZE);
    return b.Some?;
  }

  function ProofOf(ed25519: Ed25519, publicKey: string, nonce: string, signature: string): Proof {
    var pub, sig := Material(publicKey, PUBLIC_KEY_SIZE), Material(signature, SIGNATURE_SIZE);
    if pub.None? then KeyUnusable
    else if sig.None? || !ed25519(pub.value, nonce, sig.value) then ProofInvalid
    else Valid
  }

  /** The verdict on a key and a signature is Ed25519's own, in whichever forms they are written. */
  lemma VerdictIgnoresTheForm(ed25519: Ed25519, f: Form, g: Form, pub: seq<byte>, nonce: string, sig: seq<byte>)
    requires |pub| == 32 && |sig| == 64
    ensures ProofOf(ed25519, Write(f, pub), nonce, Write(g, sig))
            == if ed25519(pub, nonce, sig) then Valid else ProofInvalid
  {
    EveryFormDecodes(f, pub);
    EveryFormDecodes(g, sig);
  }
}
