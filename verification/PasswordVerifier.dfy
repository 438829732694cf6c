/** Argon2id password verifiers as PHC strings: password.go, with what it uses of fmt.Sscanf and strings.Split. */
module PasswordVerifier {
  import opened Common
  import Rfc4648

  const ARGON_TIME := 1
  const ARGON_MEMORY := 65536
  const ARGON_THREADS := 4
  const ARGON_KEY_LEN := 32
  const ARGON_SALT_LEN := 16
  const ARGON_VERSION := 19
  const MIN_PASSWORD_LENGTH := 12

  const MAX_UINT32 := 0xFFFF_FFFF
  const MAX_UINT8 := 255

  /** Argon2id (RFC 9106): password, salt, passes, memory, lanes, key length; None where the library panics. */
  type Derive = (string, seq<byte>, int, int, int, int) -> Option<seq<byte>>

  /** The library derives a key of the length asked for, and panics at no passes, no lanes or an empty key. */
  ghost predicate Derives(derive: Derive) {
    forall p, salt, time, memory, threads, n :: DerivesAt(derive, p, salt, time, memory, threads, n)
  }

  predicate DerivesAt(derive: Derive, p: string, salt: seq<byte>, time: int, memory: int, threads: int, n: int) {
    var k := derive(p, salt, time, memory, threads, n);
    && (k.Some? <==> time >= 1 && threads >= 1 && n >= 1)
    && (k.Some? ==> |k.value| == n)
  }

  /** What a stored string holds. */
  datatype Verifier = Verifier(memory: int, time: int, threads: int, salt: seq<byte>, key: seq<byte>)

  predicate InRange(v: Verifier) {
    0 <= v.memory <= MAX_UINT32 && 0 <= v.time <= MAX_UINT32 && 0 <= v.threads <= MAX_UINT8
  }

  // ----- Text in pieces -----

  /** strings.Split at one character. */
  function Split(s: string, sep: char): (parts: seq<string>)
    ensures |parts| >= 1
  {
    if s == "" then [""]
    else
      var rest := Split(s[1..], sep);
      if s[0] == sep then [""] + rest else [[s[0]] + rest[0]] + rest[1..]
  }

  /** %d, printing. */
  function Decimal(n: nat): string {
    if n < 10 then [Digit(n)] else Decimal(n / 10) + [Digit(n % 10)]
  }

  predicate IsDigit(c: char) {
    '0' <= c <= '9'
  }

  predicate AllDigits(s: string) {
    forall i :: 0 <= i < |s| ==> IsDigit(s[i])
  }

  /** No digit comes next. */
  predicate EndsNumber(rest: string) {
    rest == "" || !IsDigit(rest[0])
  }

  // ----- fmt.Sscanf -----

  datatype Scanned = Scanned(value: int, rest: string)

  function Literal(s: string, lit: string): Option<string> {
    if lit <= s then Some(s[|lit|..]) else None
  }

  /** White space before a number; a newline is refused. */
  function SkipSpace(s: string): Option<string> {
    if s == "" || !IsSpace(s[0]) then Some(s)
    else if s[0] == '\n' then None
    else SkipSpace(s[1..])
  }

  /** How many digits lead. */
  function DigitRun(s: string): (n: nat)
    ensures n <= |s| && AllDigits(s[..n]) && (n < |s| ==> !IsDigit(s[n]))
  {
    if s == "" || !IsDigit(s[0]) then 0 else 1 + DigitRun(s[1..])
  }

  /** %d into an unsigned integer of a given width: no sign, no overflow. */
  function ScanUint(s: string, max: int): Option<Scanned> {
    var t := SkipSpace(s);
    if t.None? then None
    else
      var n := DigitRun(t.value);
      if n == 0 || Number(t.value[..n]) > max then None else Some(Scanned(Number(t.value[..n]), t.value[n..]))
  }

  function Sign(s: string): (sign: string)
    ensures sign <= s && (sign == "" || sign == "+" || sign == "-")
  {
    if s != "" && (s[0] == '+' || s[0] == '-') then s[..1] else ""
  }

  function Signed(sign: string, n: int): int {
    if sign == "-" then -n else n
  }

  predicate FitsInt(n: int) {
    -0x8000_0000_0000_0000 <= n <= 0x7FFF_FFFF_FFFF_FFFF
  }

  /** %d into an int: one sign allowed, 64 bits. */
  function ScanInt(s: string): Option<Scanned> {
    var t := SkipSpace(s);
    if t.None? then None
    else
      var sign := Sign(t.value);
      var u := t.value[|sign|..];
      var n := DigitRun(u);
      if n == 0 || !FitsInt(Signed(sign, Number(u[..n]))) then None
      else Some(Scanned(Signed(sign, Number(u[..n])), u[n..]))
  }

  /** "v=%d"; what follows is not looked at. */
  function ScanVersion(s: string): Option<int> {
    var a := Literal(s, "v=");
    if a.None? then None
    else
      var v := ScanInt(a.value);
      if v.None? then None else Some(v.value.value)
  }

  /** A literal and then an unsigned number. */
  function ScanField(s: string, lit: string, max: int): Option<Scanned> {
    var a := Literal(s, lit);
    if a.None? then None else ScanUint(a.value, max)
  }

  /** "m=%d,t=%d,p=%d" */
  function ScanCost(s: string): Option<(int, int, int)> {
    var m := ScanField(s, "m=", MAX_UINT32);
    if m.None? then None
    else
      var t := ScanField(m.value.rest, ",t=", MAX_UINT32);
      if t.None? then None
      else
        var p := ScanField(t.value.rest, ",p=", MAX_UINT8);
        if p.None? then None else Some((m.value.value, t.value.value, p.value.value))
  }

  // ----- The verifier string -----

  function VersionText(): string {
    "v=" + Decimal(ARGON_VERSION)
  }

  function CostText(v: Verifier): string
    requires InRange(v)
  {
    "m=" + (Decimal(v.memory) + (",t=" + (Decimal(v.time) + (",p=" + Decimal(v.threads)))))
  }

  function Join(parts: seq<string>, sep: char): string
    requires parts != []
  {
    if |parts| == 1 then parts[0] else parts[0] + ([sep] + Join(parts[1..], sep))
  }

  function Parts(v: Verifier): seq<string>
    requires InRange(v)
  {
    ["", "argon2id", VersionText(), CostText(v),
     Rfc4648.Encode(Rfc4648.RawStd, v.salt), Rfc4648.Encode(Rfc4648.RawStd, v.key)]
  }

  function Printed(v: Verifier): string
    requires InRange(v)
  {
    Join(Parts(v), '$')
  }

  /** The fields together; one that could not be read spoils them all. */
  function Assembled(
    version: Option<int>, cost: Option<(int, int, int)>, salt: Option<seq<byte>>, key: Option<seq<byte>>)
    : Option<Verifier>
  {
    if version != Some(ARGON_VERSION) || cost.None? || salt.None? || key.None? then None
    else Some(Verifier(cost.value.0, cost.value.1, cost.value.2, salt.value, key.value))
  }

  function ParsedParts(parts: seq<string>): Option<Verifier> {
    if |parts| != 6 || parts[1] != "argon2id" then None
    else
      Assembled(ScanVersion(parts[2]), ScanCost(parts[3]),
                Rfc4648.Decode(Rfc4648.RawStd, parts[4]), Rfc4648.Decode(Rfc4648.RawStd, parts[5]))
  }

  function Parsed(encoded: string): Option<Verifier> {
    ParsedParts(Split(encoded, '$'))
  }

  datatype HashError = PasswordTooShort | HashPanics

  function Hash(derive: Derive, password: string, salt: seq<byte>): Result<string, HashError>
    requires |salt| == ARGON_SALT_LEN
  {
    if |password| < MIN_PASSWORD_LENGTH then Err(PasswordTooShort)
    else
      var key := derive(password, salt, ARGON_TIME, ARGON_MEMORY, ARGON_THREADS, ARGON_KEY_LEN);
      if key.None? then Err(HashPanics)
      else Ok(Printed(Verifier(ARGON_MEMORY, ARGON_TIME, ARGON_THREADS, salt, key.value)))
  }

  datatype Outcome = Matches | Differs | BadVerifier | VerifyPanics

  function Verify(derive: Derive, encoded: string, password: string): Outcome {
    var v := Parsed(encoded);
    if v.None? then BadVerifier
    else
      var got := derive(password, v.value.salt, v.value.time, v.value.memory, v.value.threads, |v.value.key|);
      if got.None? then VerifyPanics
      else if got.value == v.value.key then Matches else Differs
  }

  // ----- Splitting undoes joining -----

  lemma {:induction false} SplitsOff(a: string, t: string, sep: char)
    requires sep !in a
    ensures Split(a + ([sep] + t), sep) == [a] + Split(t, sep)
  {
    var s := a + ([sep] + t);
    if a == "" {
      assert s[1..] == t;
    } else {
      assert s[1..] == a[1..] + ([sep] + t);
      SplitsOff(a[1..], t, sep);
      assert [a[0]] + a[1..] == a;
    }
  }

  lemma {:induction false} SplitOfOne(a: string, sep: char)
    requires sep !in a
    ensures Split(a, sep) == [a]
  {
    if a != "" {
      SplitOfOne(a[1..], sep);
      assert [a[0]] + a[1..] == a;
    }
  }

  lemma {:induction false} SplitUndoesJoin(parts: seq<string>, sep: char)
    requires parts != [] && forall i :: 0 <= i < |parts| ==> sep !in parts[i]
    ensures Split(Join(parts, sep), sep) == parts
  {
    if |parts| == 1 {
      SplitOfOne(parts[0], sep);
    } else {
      SplitUndoesJoin(parts[1..], sep);
      SplitsOff(parts[0], Join(parts[1..], sep), sep);
    }
  }

  // ----- Scanning undoes printing -----

  lemma {:induction false} DecimalReadsBack(n: nat)
    ensures Decimal(n) != "" && AllDigits(Decimal(n)) && Number(Decimal(n)) == n
  {
    if n >= 10 {
      DecimalReadsBack(n / 10);
      assert Decimal(n)[..|Decimal(n)| - 1] == Decimal(n / 10);
    }
  }

  lemma {:induction false} RunOfDigits(d: string, rest: string)
    requires AllDigits(d) && EndsNumber(rest)
    ensures DigitRun(d + rest) == |d|
  {
    if d == "" {
      assert d + rest == rest;
    } else {
      RunOfDigits(d[1..], rest);
      assert (d + rest)[1..] == d[1..] + rest;
    }
  }

  lemma NumberIsScanned(n: nat, rest: string, max: int)
    requires EndsNumber(rest) && n <= max
    ensures ScanUint(Decimal(n) + rest, max) == Some(Scanned(n, rest))
  {
    var d := Decimal(n);
    DecimalReadsBack(n);
    assert d + rest == "" + (d + rest);
    UintSpelling(d + rest, "", d, rest);
    SpelledUintIsScanned(d + rest, max, n, rest);
  }

  lemma IntIsScanned(n: nat, rest: string)
    requires EndsNumber(rest) && FitsInt(n)
    ensures ScanInt(Decimal(n) + rest) == Some(Scanned(n, rest))
  {
    var d := Decimal(n);
    DecimalReadsBack(n);
    assert d + rest == "" + ("" + (d + rest));
    IntSpelling(d + rest, "", "", d, rest);
    SpelledIntIsScanned(d + rest, n, rest);
  }

  lemma FieldIsScanned(lit: string, n: nat, rest: string, max: int)
    requires n <= max && EndsNumber(rest)
    ensures ScanField(lit + (Decimal(n) + rest), lit, max) == Some(Scanned(n, rest))
  {
    NumberIsScanned(n, rest, max);
    var s := lit + (Decimal(n) + rest);
    assert lit <= s && s[|lit|..] == Decimal(n) + rest;
  }

  lemma VersionIsScanned()
    ensures ScanVersion(VersionText()) == Some(ARGON_VERSION)
  {
    IntIsScanned(ARGON_VERSION, "");
    assert Decimal(ARGON_VERSION) + "" == Decimal(ARGON_VERSION);
    assert VersionText()[2..] == Decimal(ARGON_VERSION);
  }

  lemma {:induction false} CostIsScanned(v: Verifier)
    requires InRange(v)
    ensures ScanCost(CostText(v)) == Some((v.memory, v.time, v.threads))
  {
    var p := ",p=" + (Decimal(v.threads) + "");
    assert p == ",p=" + Decimal(v.threads);
    var t := ",t=" + (Decimal(v.time) + p);
    FieldIsScanned("m=", v.memory, t, MAX_UINT32);
    FieldIsScanned(",t=", v.time, p, MAX_UINT32);
    FieldIsScanned(",p=", v.threads, "", MAX_UINT8);
  }

  // ----- No part holds the separator -----

  lemma DigitsHoldNoDollar(n: nat)
    ensures '$' !in Decimal(n)
  {
    DecimalReadsBack(n);
  }

  lemma EncodedHoldsNoDollar(bs: seq<byte>)
    ensures '$' !in Rfc4648.Encode(Rfc4648.RawStd, bs)
  {
    Rfc4648.EncodedIsPrintable(Rfc4648.RawStd, bs);
  }

  lemma PartsHoldNoDollar(v: Verifier)
    requires InRange(v)
    ensures forall i :: 0 <= i < |Parts(v)| ==> '$' !in Parts(v)[i]
  {
    DigitsHoldNoDollar(ARGON_VERSION);
    DigitsHoldNoDollar(v.memory);
    DigitsHoldNoDollar(v.time);
    DigitsHoldNoDollar(v.threads);
    EncodedHoldsNoDollar(v.salt);
    EncodedHoldsNoDollar(v.key);
    assert '$' !in VersionText() && '$' !in CostText(v);
  }

  // ----- The round trip -----

  /** A printed verifier splits on '$' into exactly its six parts, the first of them empty. */
  lemma {:induction false} PrintedHasSixParts(v: Verifier)
    requires InRange(v)
    ensures Split(Printed(v), '$') == Parts(v) && |Parts(v)| == 6
  {
    PartsHoldNoDollar(v);
    SplitUndoesJoin(Parts(v), '$');
  }

  /** Memory, passes, lanes, salt and key all read back exactly. */
  lemma {:induction false} PrintedParses(v: Verifier)
    requires InRange(v)
    ensures Parsed(Printed(v)) == Some(v)
  {
    PrintedHasSixParts(v);
    VersionIsScanned();
    CostIsScanned(v);
    EncodedReadsBack(v.salt);
    EncodedReadsBack(v.key);
  }

  lemma {:induction false} EncodedReadsBack(bs: seq<byte>)
    ensures Rfc4648.Decode(Rfc4648.RawStd, Rfc4648.Encode(Rfc4648.RawStd, bs)) == Some(bs)
  {
    Rfc4648.RoundTrip(Rfc4648.RawStd, bs, Rfc4648.Encode(Rfc4648.RawStd, bs));
  }

  lemma {:induction false} JoinedLast(parts: seq<string>, last: string, sep: char)
    requires parts != []
    ensures Join(parts + [last], sep) == Join(parts, sep) + [sep] + last
  {
    assert (parts + [last])[1..] == parts[1..] + [last];
    if |parts| > 1 {
      JoinedLast(parts[1..], last, sep);
    } else {
      assert Join([last], sep) == last;
    }
  }

  lemma JoinOfSix(a: string, b: string, c: string, d: string, e: string, f: string, sep: char)
    ensures Join([a, b, c, d, e, f], sep) == a + [sep] + b + [sep] + c + [sep] + d + [sep] + e + [sep] + f
  {
    assert [a] + [b] == [a, b] && [a, b] + [c] == [a, b, c] && [a, b, c] + [d] == [a, b, c, d];
    assert [a, b, c, d] + [e] == [a, b, c, d, e] && [a, b, c, d, e] + [f] == [a, b, c, d, e, f];
    JoinedLast([a], b, sep);
    JoinedLast([a, b], c, sep);
    JoinedLast([a, b, c], d, sep);
    JoinedLast([a, b, c, d], e, sep);
    JoinedLast([a, b, c, d, e], f, sep);
  }

  lemma LaidOut(a: string, m: string, b: string, t: string, c: string, p: string, x: string, y: string)
    ensures "" + ['$'] + "argon2id" + ['$'] + "v=19" + ['$'] + (a + (m + (b + (t + (c + p))))) + ['$'] + x + ['$'] + y
            == "$argon2id$v=19$" + a + m + b + t + c + p + "$" + x + "$" + y
  {
    var head := "" + ['$'] + "argon2id" + ['$'] + "v=19" + ['$'];
    assert head == "$argon2id$v=19$";
    assert a + (m + (b + (t + (c + p)))) == a + m + b + t + c + p;
    assert head + (a + m + b + t + c + p) == head + a + m + b + t + c + p;
  }

  /** The layout of what is stored. */
  lemma PrintedLayout(v: Verifier)
    requires InRange(v)
    ensures Printed(v)
            == "$argon2id$v=19$" + "m=" + Decimal(v.memory) + ",t=" + Decimal(v.time) + ",p=" + Decimal(v.threads)
               + "$" + Rfc4648.Encode(Rfc4648.RawStd, v.salt) + "$" + Rfc4648.Encode(Rfc4648.RawStd, v.key)
  {
    assert VersionText() == "v=19";
    JoinOfSix("", "argon2id", VersionText(), CostText(v),
              Rfc4648.Encode(Rfc4648.RawStd, v.salt), Rfc4648.Encode(Rfc4648.RawStd, v.key), '$');
    LaidOut("m=", Decimal(v.memory), ",t=", Decimal(v.time), ",p=", Decimal(v.threads),
            Rfc4648.Encode(Rfc4648.RawStd, v.salt), Rfc4648.Encode(Rfc4648.RawStd, v.key));
  }

  /** The costs print as the decimal digits of their values, with no zero in front. */
  lemma {:induction false} DecimalIsPlain(n: nat)
    ensures var d := Decimal(n);
            d != "" && AllDigits(d) && Number(d) == n && (d[0] == '0' ==> n == 0 && d == "0")
  {
    DecimalReadsBack(n);
    if n >= 10 {
      DecimalIsPlain(n / 10);
      assert Decimal(n)[0] == Decimal(n / 10)[0];
    }
  }

  /** What Hash stores, for a password of twelve characters: the key derived in one pass over 65536 KiB in four lanes,
      32 bytes of it, with the salt it was derived under. */
  lemma {:induction false} HashLayout(derive: Derive, password: string, salt: seq<byte>)
    requires Derives(derive) && |salt| == 16 && |password| >= 12
    ensures var key := derive(password, salt, 1, 65536, 4, 32);
            && key.Some? && |key.value| == 32
            && Hash(derive, password, salt)
               == Ok("$argon2id$v=19$m=65536,t=1,p=4$" + Rfc4648.Encode(Rfc4648.RawStd, salt)
                     + "$" + Rfc4648.Encode(Rfc4648.RawStd, key.value))
  {
    assert DerivesAt(derive, password, salt, 1, 65536, 4, 32);
    var v := Verifier(65536, 1, 4, salt, derive(password, salt, 1, 65536, 4, 32).value);
    PrintedLayout(v);
    CurrentCost();
    assert "$argon2id$v=19$" + "m=" + Decimal(65536) + ",t=" + Decimal(1) + ",p=" + Decimal(4) + "$"
        == "$argon2id$v=19$" + "m=65536,t=1,p=4" + "$"
        == "$argon2id$v=19$m=65536,t=1,p=4$";
  }

  lemma CurrentCost()
    ensures "m=" + Decimal(65536) + ",t=" + Decimal(1) + ",p=" + Decimal(4) == "m=65536,t=1,p=4"
  {
    assert Decimal(65) == "65" && Decimal(655) == "655" && Decimal(6553) == "6553" && Decimal(65536) == "65536";
  }

  /** A password is hashed exactly when it has twelve characters, and then its verifier matches exactly
      the passwords that derive the same key; among them the password itself. */
  lemma {:induction false} HashVerifies(derive: Derive, password: string, salt: seq<byte>, other: string)
    requires Derives(derive) && |salt| == ARGON_SALT_LEN
    ensures Hash(derive, password, salt).Err? <==> |password| < 12
    ensures Hash(derive, password, salt).Err? ==> Hash(derive, password, salt).error == PasswordTooShort
    ensures Hash(derive, password, salt).Ok? ==>
              var h := Hash(derive, password, salt).value;
              && Verify(derive, h, password) == Matches
              && Verify(derive, h, other)
                 == if derive(other, salt, 1, 65536, 4, 32) == derive(password, salt, 1, 65536, 4, 32)
                    then Matches else Differs
  {
    var k := derive(password, salt, ARGON_TIME, ARGON_MEMORY, ARGON_THREADS, ARGON_KEY_LEN);
    assert DerivesAt(derive, password, salt, ARGON_TIME, ARGON_MEMORY, ARGON_THREADS, ARGON_KEY_LEN);
    assert DerivesAt(derive, other, salt, ARGON_TIME, ARGON_MEMORY, ARGON_THREADS, ARGON_KEY_LEN);
    PrintedParses(Verifier(ARGON_MEMORY, ARGON_TIME, ARGON_THREADS, salt, k.value));
  }

  /** Raising the cost strands nobody: a verifier stored at any cost is judged at that cost and key length. */
  lemma {:induction false} VerifiesAtTheStoredCost(derive: Derive, v: Verifier, password: string)
    requires InRange(v)
    ensures Verify(derive, Printed(v), password)
            == var k := derive(password, v.salt, v.time, v.memory, v.threads, |v.key|);
               if k.None? then VerifyPanics else if k == Some(v.key) then Matches else Differs
  {
    PrintedParses(v);
  }

  /** Two verifiers are printed alike only when they are the same; two salts never make one string. */
  lemma {:induction false} PrintingIsInjective(v: Verifier, w: Verifier)
    requires InRange(v) && InRange(w) && Printed(v) == Printed(w)
    ensures v == w
  {
    PrintedParses(v);
    PrintedParses(w);
  }

  lemma {:induction false} TwoSaltsTwoHashes(derive: Derive, password: string, salt: seq<byte>, other: seq<byte>)
    requires |salt| == |other| == ARGON_SALT_LEN && salt != other
    requires Hash(derive, password, salt).Ok? && Hash(derive, password, other).Ok?
    ensures Hash(derive, password, salt) != Hash(derive, password, other)
  {
    var k := derive(password, salt, ARGON_TIME, ARGON_MEMORY, ARGON_THREADS, ARGON_KEY_LEN).value;
    var l := derive(password, other, ARGON_TIME, ARGON_MEMORY, ARGON_THREADS, ARGON_KEY_LEN).value;
    if Hash(derive, password, salt) == Hash(derive, password, other) {
      PrintingIsInjective(Verifier(ARGON_MEMORY, ARGON_TIME, ARGON_THREADS, salt, k),
                          Verifier(ARGON_MEMORY, ARGON_TIME, ARGON_THREADS, other, l));
    }
  }

  // ----- What is read is in range -----

  lemma {:induction false} DigitsAreNatural(s: string)
    requires AllDigits(s)
    ensures Number(s) >= 0
  {
    if s != "" {
      DigitsAreNatural(s[..|s| - 1]);
    }
  }

  lemma ScannedIsInRange(s: string, lit: string, max: int)
    ensures ScanField(s, lit, max).Some? ==> 0 <= ScanField(s, lit, max).value.value <= max
  {
    if lit <= s {
      var t := SkipSpace(s[|lit|..]);
      if t.Some? {
        DigitsAreNatural(t.value[..DigitRun(t.value)]);
      }
    }
  }

  /** Any string at all that is accepted was written by some verifier in range, up to how its numbers and
      base64 are spelled: printing what was read and reading it again changes nothing. */
  lemma {:induction false} ReadingIsIdempotent(encoded: string)
    requires Parsed(encoded).Some?
    ensures InRange(Parsed(encoded).value) && Parsed(Printed(Parsed(encoded).value)) == Parsed(encoded)
  {
    var cost := Split(encoded, '$')[3];
    var m := ScanField(cost, "m=", MAX_UINT32);
    ScannedIsInRange(cost, "m=", MAX_UINT32);
    var t := ScanField(m.value.rest, ",t=", MAX_UINT32);
    ScannedIsInRange(m.value.rest, ",t=", MAX_UINT32);
    ScannedIsInRange(t.value.rest, ",p=", MAX_UINT8);
    PrintedParses(Parsed(encoded).value);
  }

  // ----- Exactly which strings are readable -----

  /** White space a scan passes over. */
  predicate IsGap(s: string) {
    forall i :: 0 <= i < |s| ==> IsSpace(s[i]) && s[i] != '\n'
  }

  /** All the digits there are before `rest`. */
  predicate IsRun(d: string, rest: string) {
    d != "" && AllDigits(d) && EndsNumber(rest)
  }

  /** A number as it may be spelled: white space, then all the digits there are. */
  ghost predicate SpellsUint(s: string, n: int, rest: string) {
    exists gap, d :: IsGap(gap) && IsRun(d, rest) && Number(d) == n && s == gap + (d + rest)
  }

  /** The same with a sign before the digits, perhaps. */
  ghost predicate SpellsInt(s: string, n: int, rest: string) {
    exists gap, sign, d ::
      IsGap(gap) && sign in ["", "+", "-"] && IsRun(d, rest)
      && Signed(sign, Number(d)) == n && s == gap + (sign + (d + rest))
  }

  lemma RunIsDigits(d: string, rest: string)
    requires IsRun(d, rest)
    ensures DigitRun(d + rest) == |d| && (d + rest)[..|d|] == d && (d + rest)[|d|..] == rest && IsDigit((d + rest)[0])
  {
    RunOfDigits(d, rest);
  }

  lemma DigitsAreRun(u: string)
    ensures DigitRun(u) != 0 ==> IsRun(u[..DigitRun(u)], u[DigitRun(u)..])
    ensures u == u[..DigitRun(u)] + u[DigitRun(u)..]
  {
  }

  lemma {:induction false} GapIsSkipped(gap: string, t: string)
    requires IsGap(gap) && (t == "" || !IsSpace(t[0]))
    ensures SkipSpace(gap + t) == Some(t)
  {
    if gap == "" {
      assert gap + t == t;
    } else {
      GapIsSkipped(gap[1..], t);
      assert (gap + t)[1..] == gap[1..] + t;
    }
  }

  lemma {:induction false} SkippedIsGap(s: string) returns (gap: string)
    requires SkipSpace(s).Some?
    ensures IsGap(gap) && s == gap + SkipSpace(s).value
  {
    if s == "" || !IsSpace(s[0]) {
      gap := "";
    } else {
      gap := SkippedIsGap(s[1..]);
      gap := [s[0]] + gap;
    }
  }

  lemma UintIsSpelled(s: string, max: int)
    requires ScanUint(s, max).Some?
    ensures ScanUint(s, max).value.value <= max
            && SpellsUint(s, ScanUint(s, max).value.value, ScanUint(s, max).value.rest)
  {
    var t := SkipSpace(s).value;
    var gap := SkippedIsGap(s);
    DigitsAreRun(t);
  }

  lemma SpelledUintIsScanned(s: string, max: int, n: int, rest: string)
    requires n <= max && SpellsUint(s, n, rest)
    ensures ScanUint(s, max) == Some(Scanned(n, rest))
  {
    var gap, d :| IsGap(gap) && IsRun(d, rest) && Number(d) == n && s == gap + (d + rest);
    RunIsDigits(d, rest);
    GapIsSkipped(gap, d + rest);
  }

  /** The scanner takes exactly the numbers so spelled that fit. */
  lemma UintsScannedExactly(s: string, max: int, n: int, rest: string)
    ensures ScanUint(s, max) == Some(Scanned(n, rest)) <==> n <= max && SpellsUint(s, n, rest)
  {
    if ScanUint(s, max).Some? {
      UintIsSpelled(s, max);
    }
    if n <= max && SpellsUint(s, n, rest) {
      SpelledUintIsScanned(s, max, n, rest);
    }
  }

  lemma SignedRunIsSpelled(s: string, gap: string, t: string)
    requires IsGap(gap) && s == gap + t && DigitRun(t[|Sign(t)|..]) != 0
    ensures var sign := Sign(t);
            var u := t[|sign|..];
            SpellsInt(s, Signed(sign, Number(u[..DigitRun(u)])), u[DigitRun(u)..])
  {
    var sign := Sign(t);
    var u := t[|sign|..];
    DigitsAreRun(u);
    assert t == sign + u;
    IntSpelling(s, gap, sign, u[..DigitRun(u)], u[DigitRun(u)..]);
  }

  lemma IntIsSpelled(s: string)
    requires ScanInt(s).Some?
    ensures FitsInt(ScanInt(s).value.value) && SpellsInt(s, ScanInt(s).value.value, ScanInt(s).value.rest)
  {
    var gap := SkippedIsGap(s);
    SignedRunIsSpelled(s, gap, SkipSpace(s).value);
  }

  lemma UintSpelling(s: string, gap: string, d: string, rest: string)
    requires IsGap(gap) && IsRun(d, rest) && s == gap + (d + rest)
    ensures SpellsUint(s, Number(d), rest)
  {
  }

  lemma IntSpelling(s: string, gap: string, sign: string, d: string, rest: string)
    requires IsGap(gap) && sign in ["", "+", "-"] && IsRun(d, rest) && s == gap + (sign + (d + rest))
    ensures SpellsInt(s, Signed(sign, Number(d)), rest)
  {
  }

  lemma SpelledIntIsScanned(s: string, n: int, rest: string)
    requires FitsInt(n) && SpellsInt(s, n, rest)
    ensures ScanInt(s) == Some(Scanned(n, rest))
  {
    var gap, sign, d :|
      IsGap(gap) && sign in ["", "+", "-"] && IsRun(d, rest)
      && Signed(sign, Number(d)) == n && s == gap + (sign + (d + rest));
    var u := d + rest;
    var t := sign + u;
    RunIsDigits(d, rest);
    GapIsSkipped(gap, t);
    assert Sign(t) == sign && t[|sign|..] == u;
  }

  lemma IntsScannedExactly(s: string, n: int, rest: string)
    ensures ScanInt(s) == Some(Scanned(n, rest)) <==> FitsInt(n) && SpellsInt(s, n, rest)
  {
    if ScanInt(s).Some? {
      IntIsSpelled(s);
    }
    if FitsInt(n) && SpellsInt(s, n, rest) {
      SpelledIntIsScanned(s, n, rest);
    }
  }

  /** The cost field as it may be spelled; anything may follow. */
  ghost predicate SpellsCost(s: string, v: Verifier) {
    exists a, b, c, rest ::
      && s == "m=" + a && SpellsUint(a, v.memory, ",t=" + b) && SpellsUint(b, v.time, ",p=" + c)
      && SpellsUint(c, v.threads, rest)
  }

  lemma FieldsScannedExactly(s: string, lit: string, max: int, n: int, rest: string)
    ensures ScanField(s, lit, max) == Some(Scanned(n, rest))
            <==> n <= max && lit <= s && SpellsUint(s[|lit|..], n, rest)
  {
    if lit <= s {
      UintsScannedExactly(s[|lit|..], max, n, rest);
    }
  }

  lemma CostsScannedExactly(s: string, v: Verifier)
    ensures ScanCost(s) == Some((v.memory, v.time, v.threads))
            <==> && 0 <= v.memory <= 4_294_967_295 && 0 <= v.time <= 4_294_967_295 && 0 <= v.threads <= 255
                 && SpellsCost(s, v)
  {
    if ScanCost(s) == Some((v.memory, v.time, v.threads)) {
      CostIsSpelled(s, v);
    }
    if InRange(v) && SpellsCost(s, v) {
      SpelledCostIsScanned(s, v);
    }
  }

  lemma CostIsSpelled(s: string, v: Verifier)
    requires ScanCost(s) == Some((v.memory, v.time, v.threads))
    ensures InRange(v) && SpellsCost(s, v)
  {
    var m := ScanField(s, "m=", MAX_UINT32).value;
    var t := ScanField(m.rest, ",t=", MAX_UINT32).value;
    var p := ScanField(t.rest, ",p=", MAX_UINT8).value;
    ScannedIsInRange(s, "m=", MAX_UINT32);
    ScannedIsInRange(m.rest, ",t=", MAX_UINT32);
    ScannedIsInRange(t.rest, ",p=", MAX_UINT8);
    FieldsScannedExactly(s, "m=", MAX_UINT32, m.value, m.rest);
    FieldsScannedExactly(m.rest, ",t=", MAX_UINT32, t.value, t.rest);
    FieldsScannedExactly(t.rest, ",p=", MAX_UINT8, p.value, p.rest);
    var a, b, c := s[2..], m.rest[3..], t.rest[3..];
    assert s == "m=" + a && m.rest == ",t=" + b && t.rest == ",p=" + c;
  }

  lemma SpelledCostIsScanned(s: string, v: Verifier)
    requires InRange(v) && SpellsCost(s, v)
    ensures ScanCost(s) == Some((v.memory, v.time, v.threads))
  {
    var a, b, c, rest :|
      && s == "m=" + a && SpellsUint(a, v.memory, ",t=" + b) && SpellsUint(b, v.time, ",p=" + c)
      && SpellsUint(c, v.threads, rest);
    var t, p := ",t=" + b, ",p=" + c;
    assert s[2..] == a && t[3..] == b && p[3..] == c;
    FieldsScannedExactly(s, "m=", MAX_UINT32, v.memory, t);
    FieldsScannedExactly(t, ",t=", MAX_UINT32, v.time, p);
    FieldsScannedExactly(p, ",p=", MAX_UINT8, v.threads, rest);
  }

  /** The version field as it may be spelled; anything may follow. */
  ghost predicate SpellsVersion(s: string) {
    exists a, rest :: s == "v=" + a && SpellsInt(a, ARGON_VERSION, rest)
  }

  lemma VersionScans(s: string, n: int)
    ensures ScanVersion(s) == Some(n) <==> "v=" <= s && ScanInt(s[2..]).Some? && ScanInt(s[2..]).value.value == n
  {
  }

  lemma VersionsScannedExactly(s: string)
    ensures ScanVersion(s) == Some(ARGON_VERSION) <==> SpellsVersion(s)
  {
    VersionScans(s, ARGON_VERSION);
    if ScanVersion(s) == Some(ARGON_VERSION) {
      IntIsSpelled(s[2..]);
      assert s == "v=" + s[2..];
    }
    if SpellsVersion(s) {
      SpelledVersionIsScanned(s);
    }
  }

  lemma SpelledVersionIsScanned(s: string)
    requires SpellsVersion(s)
    ensures "v=" <= s && ScanInt(s[2..]).Some? && ScanInt(s[2..]).value.value == ARGON_VERSION
  {
    var a, rest :| s == "v=" + a && SpellsInt(a, ARGON_VERSION, rest);
    SpelledIntIsScanned(a, ARGON_VERSION, rest);
    assert s[2..] == a;
  }

  lemma {:induction false} JoinUndoesSplit(s: string, sep: char)
    ensures Join(Split(s, sep), sep) == s
    ensures forall i :: 0 <= i < |Split(s, sep)| ==> sep !in Split(s, sep)[i]
  {
    if s != "" {
      JoinUndoesSplit(s[1..], sep);
      var rest := Split(s[1..], sep);
      if s[0] == sep {
        assert ([""] + rest)[1..] == rest;
      } else {
        assert ([[s[0]] + rest[0]] + rest[1..])[1..] == rest[1..];
      }
      assert s == [s[0]] + s[1..];
    }
  }

  /** Six parts that spell a verifier; what comes before the first '$' is not looked at. */
  ghost predicate SpellsVerifier(parts: seq<string>, v: Verifier) {
    && |parts| == 6 && (forall i :: 0 <= i < 6 ==> '$' !in parts[i])
    && parts[1] == "argon2id" && SpellsVersion(parts[2]) && InRange(v) && SpellsCost(parts[3], v)
    && Rfc4648.Decode(Rfc4648.RawStd, parts[4]) == Some(v.salt)
    && Rfc4648.Decode(Rfc4648.RawStd, parts[5]) == Some(v.key)
  }

  ghost predicate Spells(encoded: string, v: Verifier) {
    exists parts :: SpellsVerifier(parts, v) && encoded == Join(parts, '$')
  }

  lemma PartsParsedExactly(parts: seq<string>, v: Verifier)
    requires forall i :: 0 <= i < |parts| ==> '$' !in parts[i]
    ensures ParsedParts(parts) == Some(v) <==> SpellsVerifier(parts, v)
  {
    if |parts| == 6 {
      VersionsScannedExactly(parts[2]);
      CostsScannedExactly(parts[3], v);
    }
  }

  /** The readable strings, and what each means: any other string is an unreadable verifier. */
  lemma {:induction false} ParsedExactly(encoded: string, v: Verifier)
    ensures Parsed(encoded) == Some(v) <==> Spells(encoded, v)
  {
    JoinUndoesSplit(encoded, '$');
    PartsParsedExactly(Split(encoded, '$'), v);
    if parts :| SpellsVerifier(parts, v) && encoded == Join(parts, '$') {
      SplitUndoesJoin(parts, '$');
    }
  }

  lemma UnparsedExactly(encoded: string)
    ensures Parsed(encoded).None? <==> forall v :: !Spells(encoded, v)
  {
    forall v ensures Spells(encoded, v) <==> Parsed(encoded) == Some(v) {
      ParsedExactly(encoded, v);
    }
    if Parsed(encoded).Some? {
      assert Spells(encoded, Parsed(encoded).value);
    }
  }

  /** A stored string that spells no verifier, and no other, is told apart from a wrong password. */
  lemma {:induction false} UnreadableExactly(derive: Derive, encoded: string, password: string)
    ensures Verify(derive, encoded, password) == BadVerifier <==> forall v :: !Spells(encoded, v)
  {
    UnparsedExactly(encoded);
  }

  /** It panics instead, whatever the password, exactly for a string that spells no passes, no lanes or an empty
      key. */
  lemma PanicsExactly(derive: Derive, encoded: string, password: string)
    requires Derives(derive)
    ensures Verify(derive, encoded, password) == VerifyPanics
            <==> exists v :: Spells(encoded, v) && (v.time == 0 || v.threads == 0 || v.key == [])
  {
    forall v ensures Spells(encoded, v) <==> Parsed(encoded) == Some(v) {
      ParsedExactly(encoded, v);
    }
    if Parsed(encoded).Some? {
      var v := Parsed(encoded).value;
      assert Spells(encoded, v);
      ReadingIsIdempotent(encoded);
      assert DerivesAt(derive, password, v.salt, v.time, v.memory, v.threads, |v.key|);
    }
  }
}
