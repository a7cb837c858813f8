/** Unpadded base64url (sections 3.2 and 5 of RFC 4648) as Go's RawURLEncoding implements it, and the check that pins
    OIDC secrets to one spelling (auth/oidc/store.go). Strings are octet strings. */
module Base64Url {
  import opened Octets

  const CR: byte := 13
  const LF: byte := 10
  const SECRET_BYTES := 32
  const SECRET_CHARS := 43

  type sextet = x: int | 0 <= x < 64

  // ---------------------------------------------------------------- the alphabet

  /** A-Z, a-z, 0-9, '-', '_'. */
  function Letter(v: sextet): (c: byte)
    ensures Value(c) == Some(v)
  {
    if v < 26 then 65 + v
    else if v < 52 then 71 + v
    else if v < 62 then v - 4
    else if v == 62 then 45
    else 95
  }

  function Value(c: byte): Option<sextet> {
    if 65 <= c <= 90 then Some(c - 65)
    else if 97 <= c <= 122 then Some(c - 71)
    else if 48 <= c <= 57 then Some(c + 4)
    else if c == 45 then Some(62)
    else if c == 95 then Some(63)
    else None
  }

  /** The alphabet of section 5 of RFC 4648. */
  lemma UrlAlphabet(v: sextet)
    ensures v < 26 ==> Letter(v) == 'A' as int + v
    ensures 26 <= v < 52 ==> Letter(v) == 'a' as int + (v - 26)
    ensures 52 <= v < 62 ==> Letter(v) == '0' as int + (v - 52)
    ensures Letter(62) == '-' as int && Letter(63) == '_' as int
  {
  }

  lemma LetterOfValue(c: byte)
    requires Value(c).Some?
    ensures Letter(Value(c).value) == c && c != CR && c != LF
  {
  }

  predicate AllLetters(s: Bytes) {
    forall i :: 0 <= i < |s| ==> Value(s[i]).Some?
  }

  function Letters(q: seq<sextet>): (s: Bytes)
    ensures |s| == |q| && forall i :: 0 <= i < |q| ==> s[i] == Letter(q[i])
  {
    seq(|q|, i requires 0 <= i < |q| => Letter(q[i]))
  }

  function Values(s: Bytes): (q: seq<sextet>)
    requires AllLetters(s)
    ensures |q| == |s| && forall i :: 0 <= i < |s| ==> q[i] == Value(s[i]).value
  {
    seq(|s|, i requires 0 <= i < |s| => Value(s[i]).value)
  }

  lemma ValuesOfLetters(q: seq<sextet>)
    ensures AllLetters(Letters(q)) && Values(Letters(q)) == q
  {
  }

  lemma LettersOfValues(s: Bytes)
    requires AllLetters(s)
    ensures Letters(Values(s)) == s
  {
    forall i | 0 <= i < |s| { LetterOfValue(s[i]); }
  }

  // ---------------------------------------------------------------- regrouping eight bits as six

  // The four sextets of three octets, and the three octets of four sextets.
  function Q0(a: byte): sextet { a / 4 }
  function Q1(a: byte, b: byte): sextet { a % 4 * 16 + b / 16 }
  function Q2(b: byte, c: byte): sextet { b % 16 * 4 + c / 64 }
  function Q3(c: byte): sextet { c % 64 }
  function T0(w: sextet, x: sextet): byte { (w as int) * 4 + x / 16 }
  function T1(x: sextet, y: sextet): byte { (x as int) % 16 * 16 + y / 4 }
  function T2(y: sextet, z: sextet): byte { (y as int) % 4 * 64 + z }

  lemma OctetsBack(a: byte, b: byte, c: byte)
    ensures T0(Q0(a), Q1(a, b)) == a && T1(Q1(a, b), Q2(b, c)) == b && T2(Q2(b, c), Q3(c)) == c
  {
  }

  lemma SextetsBack(w: sextet, x: sextet, y: sextet, z: sextet)
    ensures Q0(T0(w, x)) == w && Q1(T0(w, x), T1(x, y)) == x && Q2(T1(x, y), T2(y, z)) == y && Q3(T2(y, z)) == z
    ensures Q1(T0(w, x), 0) == x <==> x % 16 == 0
    ensures Q2(T1(x, y), 0) == y <==> y % 4 == 0
  {
  }

  /** Three octets become four sextets; one or two left over become two or three, low bits zero. */
  function ToSextets(b: Bytes): seq<sextet> {
    if |b| == 0 then []
    else if |b| == 1 then [Q0(b[0]), Q1(b[0], 0)]
    else if |b| == 2 then [Q0(b[0]), Q1(b[0], b[1]), Q2(b[1], 0)]
    else [Q0(b[0]), Q1(b[0], b[1]), Q2(b[1], b[2]), Q3(b[2])] + ToSextets(b[3..])
  }

  /** Four sextets become three octets; of a shorter last group the unused low bits are dropped unseen. */
  function ToOctets(q: seq<sextet>): Bytes {
    if |q| < 2 then []
    else if |q| == 2 then [T0(q[0], q[1])]
    else if |q| == 3 then [T0(q[0], q[1]), T1(q[1], q[2])]
    else [T0(q[0], q[1]), T1(q[1], q[2]), T2(q[2], q[3])] + ToOctets(q[4..])
  }

  lemma {:induction false} SextetCount(b: Bytes)
    ensures 4 * |b| <= 3 * |ToSextets(b)| <= 4 * |b| + 2
  {
    if |b| >= 3 {
      SextetCount(b[3..]);
    }
  }

  lemma {:induction false} OctetCount(q: seq<sextet>)
    ensures 4 * |ToOctets(q)| <= 3 * |q| < 4 * |ToOctets(q)| + 4
  {
    if |q| >= 4 {
      OctetCount(q[4..]);
    }
  }

  /** Unlike the decoder, the encoder never leaves a single sextet over. */
  lemma {:induction false} NoLoneSextet(b: Bytes)
    ensures |ToSextets(b)| % 4 != 1
  {
    if |b| >= 3 {
      NoLoneSextet(b[3..]);
    }
  }

  lemma OctetsOf1(a: byte)
    ensures ToOctets([Q0(a), Q1(a, 0)]) == [a]
  {
    OctetsBack(a, 0, 0);
  }

  lemma OctetsOf2(a: byte, b: byte)
    ensures ToOctets([Q0(a), Q1(a, b), Q2(b, 0)]) == [a, b]
  {
    OctetsBack(a, b, 0);
  }

  lemma OctetsOf4(a: byte, b: byte, c: byte, rest: seq<sextet>)
    ensures ToOctets([Q0(a), Q1(a, b), Q2(b, c), Q3(c)] + rest) == [a, b, c] + ToOctets(rest)
  {
    OctetsBack(a, b, c);
    FirstOctets(Q0(a), Q1(a, b), Q2(b, c), Q3(c), rest);
  }

  lemma FirstOctets(w: sextet, x: sextet, y: sextet, z: sextet, rest: seq<sextet>)
    ensures ToOctets([w, x, y, z] + rest) == [T0(w, x), T1(x, y), T2(y, z)] + ToOctets(rest)
  {
    assert ([w, x, y, z] + rest)[4..] == rest;
  }

  lemma {:induction false} OctetsOfSextets(b: Bytes)
    ensures ToOctets(ToSextets(b)) == b
  {
    if |b| == 1 {
      OctetsOf1(b[0]);
    } else if |b| == 2 {
      OctetsOf2(b[0], b[1]);
    } else if |b| >= 3 {
      OctetsOf4(b[0], b[1], b[2], ToSextets(b[3..]));
      OctetsOfSextets(b[3..]);
    }
  }

  /** No bits are set behind the last whole octet, and there is no lone sextet. */
  predicate ZeroTail(q: seq<sextet>) {
    && |q| % 4 != 1
    && (|q| % 4 == 2 ==> q[|q| - 1] % 16 == 0)
    && (|q| % 4 == 3 ==> q[|q| - 1] % 4 == 0)
  }

  lemma ZeroTailStep(q: seq<sextet>)
    requires |q| >= 4
    ensures ZeroTail(q) <==> ZeroTail(q[4..])
  {
  }

  lemma SextetsOf1(w: sextet, x: sextet)
    ensures ToSextets([T0(w, x)]) == [w, x] <==> x % 16 == 0
  {
  }

  lemma SextetsOf2(w: sextet, x: sextet, y: sextet)
    ensures ToSextets([T0(w, x), T1(x, y)]) == [w, x, y] <==> y % 4 == 0
  {
    SextetsBack(w, x, y, 0);
    assert ToSextets([T0(w, x), T1(x, y)]) == [w, x, Q2(T1(x, y), 0)];
    assert [w, x, Q2(T1(x, y), 0)] == [w, x, y] <==> Q2(T1(x, y), 0) == y;
  }

  lemma SextetsOf3(w: sextet, x: sextet, y: sextet, z: sextet, rest: Bytes)
    ensures ToSextets([T0(w, x), T1(x, y), T2(y, z)] + rest) == [w, x, y, z] + ToSextets(rest)
  {
    SextetsBack(w, x, y, z);
    FirstSextets(T0(w, x), T1(x, y), T2(y, z), rest);
  }

  lemma FirstSextets(a: byte, b: byte, c: byte, rest: Bytes)
    ensures ToSextets([a, b, c] + rest) == [Q0(a), Q1(a, b), Q2(b, c), Q3(c)] + ToSextets(rest)
  {
    assert ([a, b, c] + rest)[3..] == rest;
  }

  lemma SextetsStep(q: seq<sextet>)
    requires |q| >= 4
    ensures ToSextets(ToOctets(q)) == q[..4] + ToSextets(ToOctets(q[4..]))
  {
    var rest := ToOctets(q[4..]);
    assert ToOctets(q) == [T0(q[0], q[1]), T1(q[1], q[2]), T2(q[2], q[3])] + rest;
    SextetsOf3(q[0], q[1], q[2], q[3], rest);
    FirstFour(q);
  }

  lemma FirstFour<T>(q: seq<T>)
    requires |q| >= 4
    ensures q[..4] == [q[0], q[1], q[2], q[3]]
  {
  }

  lemma Cancel<T>(p: seq<T>, x: seq<T>, y: seq<T>)
    ensures p + x == p + y <==> x == y
  {
    assert (p + x)[|p|..] == x;
    assert (p + y)[|p|..] == y;
  }

  /** Regrouping there and back loses something exactly when bits are set that no octet covers. */
  lemma {:induction false} SextetsOfOctets(q: seq<sextet>)
    ensures ToSextets(ToOctets(q)) == q <==> ZeroTail(q)
  {
    if |q| == 2 {
      SextetsOf1(q[0], q[1]);
      assert q == [q[0], q[1]];
    } else if |q| == 3 {
      SextetsOf2(q[0], q[1], q[2]);
      assert q == [q[0], q[1], q[2]];
    } else if |q| >= 4 {
      SextetsOfOctets(q[4..]);
      SextetsStep(q);
      ZeroTailStep(q);
      Cancel(q[..4], ToSextets(ToOctets(q[4..])), q[4..]);
      assert q == q[..4] + q[4..];
    }
  }

  // ---------------------------------------------------------------- regrouping keeps the number

  /** The number whose base-64 digits are q, most significant first. */
  function SextetNumber(q: seq<sextet>): nat {
    if q == [] then 0 else 64 * SextetNumber(q[..|q| - 1]) + q[|q| - 1]
  }

  function Pow64(n: nat): nat {
    if n == 0 then 1 else 64 * Pow64(n - 1)
  }

  lemma {:induction false} SextetConcat(a: seq<sextet>, b: seq<sextet>)
    ensures SextetNumber(a + b) == SextetNumber(a) * Pow64(|b|) + SextetNumber(b)
    decreases |b|
  {
    if b == [] {
      assert a + b == a;
    } else {
      var (front, last) := (b[..|b| - 1], b[|b| - 1]);
      SextetConcat(a, front);
      assert (a + b)[..|a + b| - 1] == a + front;
      assert SextetNumber(a + b) == 64 * SextetNumber(a + front) + last;
      assert 64 * (SextetNumber(a) * Pow64(|front|)) == SextetNumber(a) * Pow64(|b|);
    }
  }

  /** The factor of the zero bits that fill up the last sextet. */
  function Padding(octets: nat): nat {
    if octets % 3 == 0 then 1 else if octets % 3 == 1 then 16 else 4
  }

  lemma {:induction false} SameWeight(b: Bytes)
    ensures Pow64(|ToSextets(b)|) == Pow256(|b|) * Padding(|b|)
  {
    if |b| < 3 {
      TailSextets(b);
      SmallPowers();
    } else {
      SameWeight(b[3..]);
      GroupPowers(|b| - 3, |ToSextets(b[3..])|);
      Widen(Pow64(|ToSextets(b[3..])|), Pow256(|b| - 3), Padding(|b| - 3));
      assert |ToSextets(b)| == |ToSextets(b[3..])| + 4 && Padding(|b| - 3) == Padding(|b|);
    }
  }

  lemma Widen(x: nat, y: nat, padding: nat)
    requires x == y * padding
    ensures 16777216 * x == 16777216 * y * padding
  {
  }

  lemma {:induction false} SmallPowers()
    ensures Pow64(0) == 1 && Pow64(2) == 4096 && Pow64(3) == 262144
    ensures Pow256(0) == 1 && Pow256(1) == 256 && Pow256(2) == 65536
  {
    assert Pow64(1) == 64 && Pow64(2) == 64 * Pow64(1) && Pow64(3) == 64 * Pow64(2);
    assert Pow256(1) == 256 * Pow256(0) && Pow256(2) == 256 * Pow256(1);
  }

  lemma {:induction false} GroupPowers(n: nat, m: nat)
    ensures Pow256(n + 3) == 16777216 * Pow256(n) && Pow64(m + 4) == 16777216 * Pow64(m)
  {
    assert Pow256(n + 1) == 256 * Pow256(n) && Pow256(n + 2) == 256 * Pow256(n + 1) && Pow256(n + 3) == 256 * Pow256(n + 2);
    assert Pow64(m + 1) == 64 * Pow64(m) && Pow64(m + 2) == 64 * Pow64(m + 1);
    assert Pow64(m + 3) == 64 * Pow64(m + 2) && Pow64(m + 4) == 64 * Pow64(m + 3);
  }

  lemma GroupNumber(a: byte, b: byte, c: byte)
    ensures SextetNumber([Q0(a), Q1(a, b), Q2(b, c), Q3(c)]) == BigEndian([a, b, c])
  {
    var (x, y, z, w) := (Q0(a), Q1(a, b), Q2(b, c), Q3(c));
    assert [x, y, z, w][..3] == [x, y, z] && [x, y, z][..2] == [x, y] && [x, y][..1] == [x] && [x][..0] == [];
    assert SextetNumber([x]) == x;
    assert SextetNumber([x, y]) == 64 * (x as int) + y;
    assert SextetNumber([x, y, z, w]) == 64 * (64 * SextetNumber([x, y]) + z) + w;
    assert [a, b, c][..2] == [a, b] && [a, b][..1] == [a] && [a][..0] == [];
    assert BigEndian([a]) == a;
    assert BigEndian([a, b]) == 256 * (a as int) + b;
  }

  lemma TailNumbers(a: byte, b: byte)
    ensures SextetNumber([Q0(a), Q1(a, 0)]) == 16 * BigEndian([a])
    ensures SextetNumber([Q0(a), Q1(a, b), Q2(b, 0)]) == 4 * BigEndian([a, b])
  {
    var (x, y, z) := (Q0(a), Q1(a, b), Q2(b, 0));
    assert [x, y, z][..2] == [x, y] && [x, y][..1] == [x] && [x][..0] == [];
    assert SextetNumber([x]) == x && SextetNumber([x, y]) == 64 * (x as int) + y;
    assert [x, Q1(a, 0)][..1] == [x];
    assert [a, b][..1] == [a] && [a][..0] == [];
  }

  /** Encoding regroups bits: the sextets spell the octets' number, shifted by the zero bits that fill up the last one. */
  lemma {:induction false} SameNumber(b: Bytes)
    ensures SextetNumber(ToSextets(b)) == BigEndian(b) * Padding(|b|)
  {
    if |b| >= 3 {
      SameNumber(b[3..]);
      SameNumberStep(b[0], b[1], b[2], b[3..]);
      assert b == [b[0], b[1], b[2]] + b[3..];
    } else {
      SameNumberTail(b);
      Scaled(SextetNumber(ToSextets(b)), BigEndian(b), |b|);
    }
  }

  lemma Scaled(number: nat, n: nat, octets: nat)
    requires octets < 3 && (octets == 0 ==> number == n) && (octets == 1 ==> number == 16 * n)
    requires octets == 2 ==> number == 4 * n
    ensures number == n * Padding(octets)
  {
  }

  lemma {:induction false} SameNumberTail(b: Bytes)
    requires |b| < 3
    ensures |b| == 0 ==> SextetNumber(ToSextets(b)) == BigEndian(b)
    ensures |b| == 1 ==> SextetNumber(ToSextets(b)) == 16 * BigEndian(b)
    ensures |b| == 2 ==> SextetNumber(ToSextets(b)) == 4 * BigEndian(b)
  {
    TailSextets(b);
    if |b| == 1 {
      TailNumbers(b[0], 0);
    } else if |b| == 2 {
      TailNumbers(b[0], b[1]);
    }
  }

  lemma {:induction false} TailSextets(b: Bytes)
    requires |b| < 3
    ensures |b| == 0 ==> b == [] && ToSextets(b) == []
    ensures |b| == 1 ==> b == [b[0]] && ToSextets(b) == [Q0(b[0]), Q1(b[0], 0)]
    ensures |b| == 2 ==> b == [b[0], b[1]] && ToSextets(b) == [Q0(b[0]), Q1(b[0], b[1]), Q2(b[1], 0)]
  {
  }

  lemma {:induction false} SameNumberStep(a: byte, b: byte, c: byte, rest: Bytes)
    requires SextetNumber(ToSextets(rest)) == BigEndian(rest) * Padding(|rest|)
    ensures SextetNumber(ToSextets([a, b, c] + rest)) == BigEndian([a, b, c] + rest) * Padding(3 + |rest|)
  {
    var last := ToSextets(rest);
    FirstSextets(a, b, c, rest);
    GroupNumber(a, b, c);
    BigEndianConcat([a, b, c], rest);
    SextetConcat([Q0(a), Q1(a, b), Q2(b, c), Q3(c)], last);
    SameWeight(rest);
    Regroup(BigEndian([a, b, c]), Pow64(|last|), Pow256(|rest|), SextetNumber(last), BigEndian(rest), Padding(|rest|));
  }

  lemma Regroup(g: nat, weight: nat, w: nat, number: nat, n: nat, padding: nat)
    requires weight == w * padding && number == n * padding
    ensures g * weight + number == (g * w + n) * padding
  {
  }

  // ---------------------------------------------------------------- the codec

  /** EncodeToString. */
  function Encode(b: Bytes): Bytes {
    Letters(ToSextets(b))
  }

  /** The decoder passes over line ends wherever they stand. */
  function SkipLineEnds(s: Bytes): Bytes {
    if s == [] then []
    else if s[0] == CR || s[0] == LF then SkipLineEnds(s[1..])
    else [s[0]] + SkipLineEnds(s[1..])
  }

  /** DecodeString. */
  function Decode(s: Bytes): Option<Bytes> {
    var t := SkipLineEnds(s);
    if AllLetters(t) && |t| % 4 != 1 then Some(ToOctets(Values(t))) else None
  }

  lemma {:induction false} SkipConcat(a: Bytes, b: Bytes)
    ensures SkipLineEnds(a + b) == SkipLineEnds(a) + SkipLineEnds(b)
  {
    if a == [] {
      assert a + b == b;
    } else {
      SkipConcat(a[1..], b);
      assert (a + b)[0] == a[0] && (a + b)[1..] == a[1..] + b;
      if a[0] != CR && a[0] != LF {
        Assoc([a[0]], SkipLineEnds(a[1..]), SkipLineEnds(b));
      }
    }
  }

  /** The decoder ignores carriage returns and line feeds, wherever they are. */
  lemma LineEndsIgnored(a: Bytes, c: byte, b: Bytes)
    requires c == 13 || c == 10
    ensures Decode(a + [c] + b) == Decode(a + b)
  {
    SkipConcat(a + [c], b);
    SkipConcat(a, [c]);
    SkipConcat(a, b);
    assert SkipLineEnds([c]) == [] && SkipLineEnds(a) + [] == SkipLineEnds(a);
  }

  lemma {:induction false} NothingToSkip(s: Bytes)
    requires AllLetters(s)
    ensures SkipLineEnds(s) == s
  {
    if s != [] {
      LetterOfValue(s[0]);
      NothingToSkip(s[1..]);
    }
  }

  /** Decoding undoes encoding, for every octet string. */
  lemma RoundTrip(b: Bytes)
    ensures Decode(Encode(b)) == Some(b)
  {
    ValuesOfLetters(ToSextets(b));
    NothingToSkip(Encode(b));
    NoLoneSextet(b);
    OctetsOfSextets(b);
  }

  /** The one spelling the encoder produces: letters only, a usable length, zero bits behind the last octet. */
  predicate Canonical(s: Bytes) {
    AllLetters(s) && ZeroTail(Values(s))
  }

  /** Re-encoding the decoded octets gives the string back exactly on the canonical spellings. */
  lemma DecodesToItself(s: Bytes)
    ensures Decode(s).Some? && Encode(Decode(s).value) == s <==> Canonical(s)
  {
    if AllLetters(s) {
      NothingToSkip(s);
      LettersOfValues(s);
      SextetsOfOctets(Values(s));
      ValuesOfLetters(ToSextets(ToOctets(Values(s))));
    } else if Decode(s).Some? {
      ValuesOfLetters(ToSextets(Decode(s).value));
    }
  }

  /** The image of the encoder, without naming it: s encodes some octets exactly when it is canonical. */
  lemma EncoderImage(s: Bytes)
    ensures (exists b :: Encode(b) == s) <==> Canonical(s)
  {
    DecodesToItself(s);
    forall b | Encode(b) == s
      ensures Canonical(s)
    {
      RoundTrip(b);
    }
  }

  // ---------------------------------------------------------------- 32-octet secrets

  /** decodeBinding: 43 characters that decode to 32 octets and re-encode to themselves. */
  function DecodeBinding(binding: Bytes): Option<Bytes> {
    if |binding| != SECRET_CHARS then None
    else
      var decoded := Decode(binding);
      if decoded.Some? && |decoded.value| == SECRET_BYTES && Encode(decoded.value) == binding then decoded else None
  }

  /** decodeBinding is the exact inverse of the encoder on 32-octet secrets. */
  lemma BindingInverse(binding: Bytes, secret: Bytes)
    ensures DecodeBinding(binding) == Some(secret) <==> |secret| == SECRET_BYTES && Encode(secret) == binding
  {
    RoundTrip(secret);
    SextetCount(secret);
  }

  /** What is accepted, in terms a caller can check: 43 letters, the last of which carries no stray bits. */
  lemma BindingExact(binding: Bytes)
    ensures DecodeBinding(binding).Some? <==>
              |binding| == SECRET_CHARS && AllLetters(binding) && Value(binding[42]).value % 4 == 0
  {
    DecodesToItself(binding);
    if AllLetters(binding) {
      NothingToSkip(binding);
      OctetCount(Values(binding));
      if |binding| == SECRET_CHARS {
        assert Canonical(binding) <==> Value(binding[42]).value % 4 == 0;
        assert |Decode(binding).value| == SECRET_BYTES;
      }
    }
  }

  /** Equal octets mean equal strings. */
  lemma BindingInjective(a: Bytes, b: Bytes)
    requires DecodeBinding(a).Some? && DecodeBinding(a) == DecodeBinding(b)
    ensures a == b
  {
    BindingInverse(a, DecodeBinding(a).value);
    BindingInverse(b, DecodeBinding(a).value);
  }

  /** Without the re-encoding step that would fail: a stray low bit in the last letter decodes to the same octets. */
  lemma StrayBitsDecodeAlike(s: Bytes, c: byte)
    requires AllLetters(s) && |s| % 4 == 3
    requires Value(c).Some? && Value(c).value / 4 == Value(s[|s| - 1]).value / 4
    ensures Decode(s[..|s| - 1] + [c]) == Decode(s)
  {
    var t := s[..|s| - 1] + [c];
    NothingToSkip(s);
    NothingToSkip(t);
    ToOctetsAlike(Values(s), Value(c).value);
    assert Values(t) == Values(s)[..|s| - 1] + [Value(c).value];
  }

  lemma {:induction false} ToOctetsAlike(q: seq<sextet>, v: sextet)
    requires |q| % 4 == 3 && v / 4 == q[|q| - 1] / 4
    ensures ToOctets(q[..|q| - 1] + [v]) == ToOctets(q)
  {
    if |q| > 3 {
      var p := q[..|q| - 1] + [v];
      ToOctetsAlike(q[4..], v);
      assert p[4..] == q[4..][..|q| - 5] + [v];
      assert p[0] == q[0] && p[1] == q[1] && p[2] == q[2] && p[3] == q[3];
    }
  }
}
