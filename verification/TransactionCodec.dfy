/** The byte layouts of auth/oidc/transaction_codec.go: the sealed plaintext and the associated data. */
module CodecFormat {
  import opened Octets

  const TWO_32 := 0x1_0000_0000
  const TWO_63 := 0x8000_0000_0000_0000
  const TWO_64 := 0x1_0000_0000_0000_0000
  const PLAIN_SIZE := 3 * 43 + 8

  /** What a sealed record carries of a transaction. */
  datatype Fields = Fields(state: Bytes, nonce: Bytes, verifier: Bytes, createdAt: int)

  /** What the associated data binds a record to. */
  datatype Identity = Identity(issuer: Bytes, clientID: Bytes, redirectURI: Bytes)

  // ---------------------------------------------------------------- plaintext

  /** uint64(t.UnixNano()) */
  function ToUint64(x: int): (u: nat)
    ensures u < TWO_64
  {
    x % TWO_64
  }

  /** int64(u) */
  function ToInt64(u: nat): int {
    if u < TWO_63 then u else u - TWO_64
  }

  /** The instant a record restores: creation times outside int64 nanoseconds wrap around. */
  function Wrapped(x: int): int {
    ToInt64(ToUint64(x))
  }

  lemma WrappedExact(x: int)
    ensures Wrapped(x) == x <==> -TWO_63 <= x < TWO_63
  {
  }

  function Plaintext(f: Fields): Bytes {
    f.state + f.nonce + f.verifier + Digits(8, ToUint64(f.createdAt))
  }

  function ParsePlaintext(p: Bytes): Fields
    requires |p| == PLAIN_SIZE
  {
    Fields(p[..43], p[43..86], p[86..129], ToInt64(BigEndian(p[129..])))
  }

  predicate ThreeSecrets(f: Fields) {
    |f.state| == 43 && |f.nonce| == 43 && |f.verifier| == 43
  }

  lemma {:induction false} Uint64RoundTrip(u: nat)
    requires u < TWO_64
    ensures BigEndian(Digits(8, u)) == u
  {
    assert Pow256(8) == TWO_64 by {
      assert Pow256(2) == 65536 && Pow256(4) == 65536 * Pow256(2) && Pow256(6) == 65536 * Pow256(4);
    }
    DigitsRoundTrip(8, u);
  }

  /** Parsing gives the three secrets back, and the creation time as far as 64 bits carry it. */
  lemma PlaintextRoundTrip(f: Fields)
    requires ThreeSecrets(f)
    ensures |Plaintext(f)| == PLAIN_SIZE && ParsePlaintext(Plaintext(f)) == f.(createdAt := Wrapped(f.createdAt))
    ensures var p := Plaintext(f); p[..43] == f.state && p[43..86] == f.nonce && p[86..129] == f.verifier
    ensures 0 <= f.createdAt < TWO_63 ==> BigEndian(Plaintext(f)[129..]) == f.createdAt
    ensures -TWO_63 <= f.createdAt < 0 ==> BigEndian(Plaintext(f)[129..]) == f.createdAt + TWO_64
  {
    var p := Plaintext(f);
    Uint64RoundTrip(ToUint64(f.createdAt));
    assert p[..43] == f.state;
    assert p[43..86] == f.nonce;
    assert p[86..129] == f.verifier;
    assert p[129..] == Digits(8, ToUint64(f.createdAt));
  }

  // ---------------------------------------------------------------- associated data

  function Parts(id: Identity): seq<Bytes> {
    [id.issuer, id.clientID, id.redirectURI]
  }

  /** Every part behind its length as a big-endian uint32; a length of 2^32 or more loses its high bits. */
  function Prefixed(parts: seq<Bytes>): Bytes {
    if parts == [] then [] else Digits(4, |parts[0]|) + parts[0] + Prefixed(parts[1..])
  }

  predicate Short(parts: seq<Bytes>) {
    forall i :: 0 <= i < |parts| ==> |parts[i]| < TWO_32
  }

  lemma {:induction false} Uint32RoundTrip(u: nat)
    requires u < TWO_32
    ensures BigEndian(Digits(4, u)) == u
  {
    assert Pow256(4) == TWO_32 by {
      assert Pow256(2) == 65536;
    }
    DigitsRoundTrip(4, u);
  }

  lemma FirstPart(a: Bytes, b: Bytes, r: Bytes, s: Bytes)
    requires |a| < TWO_32 && |b| < TWO_32
    requires Digits(4, |a|) + a + r == Digits(4, |b|) + b + s
    ensures a == b && r == s
  {
    Assoc(Digits(4, |a|), a, r);
    Assoc(Digits(4, |b|), b, s);
    SameHead(Digits(4, |a|), Digits(4, |b|), a + r, b + s);
    Uint32RoundTrip(|a|);
    Uint32RoundTrip(|b|);
    SameHead(a, b, r, s);
  }

  /** Length prefixes make the concatenation unambiguous, for any number of parts. */
  lemma {:induction false} PrefixedInjective(p: seq<Bytes>, q: seq<Bytes>)
    requires Short(p) && Short(q) && Prefixed(p) == Prefixed(q)
    ensures p == q
  {
    if p != [] && q != [] {
      FirstPart(p[0], q[0], Prefixed(p[1..]), Prefixed(q[1..]));
      PrefixedInjective(p[1..], q[1..]);
      assert p == [p[0]] + p[1..] && q == [q[0]] + q[1..];
    }
  }

  lemma {:induction false} ZeroDigits(n: nat)
    ensures forall i :: 0 <= i < n ==> Digits(n, 0)[i] == 0
  {
    if n > 0 {
      ZeroDigits(n - 1);
    }
  }

  /** A part of 2^32 zero octets has the length prefix of an empty one, and two layouts collide. */
  lemma LongPartsCollide() returns (p: seq<Bytes>, q: seq<Bytes>)
    ensures Within(p, TWO_32) && Within(q, TWO_32) && p != q && Prefixed(p) == Prefixed(q)
  {
    var zeros: Bytes := seq(TWO_32, _ => 0);
    p, q := [zeros, [], []], [[], zeros, []];
    assert |p[0]| != |q[0]|;
    LongPrefix();
    ZeroDigits(4);
    PrefixedOf3(zeros, [], []);
    PrefixedOf3([], zeros, []);
    assert Digits(4, 0) + zeros == zeros + Digits(4, 0);
  }

  ghost predicate Within(parts: seq<Bytes>, bound: nat) {
    forall i :: 0 <= i < |parts| ==> |parts[i]| <= bound
  }

  ghost predicate Unambiguous(bound: nat) {
    forall p, q :: Within(p, bound) && Within(q, bound) && Prefixed(p) == Prefixed(q) ==> p == q
  }

  /** By itself the layout tells all lists of parts apart exactly while every length fits in its 32-bit prefix. */
  lemma UnambiguousExactly(bound: nat)
    ensures Unambiguous(bound) <==> bound < TWO_32
  {
    if bound < TWO_32 {
      forall p, q | Within(p, bound) && Within(q, bound) && Prefixed(p) == Prefixed(q)
        ensures p == q
      {
        PrefixedInjective(p, q);
      }
    } else {
      var p, q := LongPartsCollide();
      assert Within(p, bound) && Within(q, bound);
    }
  }

  lemma LongPrefix()
    ensures Digits(4, TWO_32) == Digits(4, 0)
  {
  }

  lemma PrefixedOf3(x: Bytes, y: Bytes, z: Bytes)
    ensures Prefixed([x, y, z]) == Digits(4, |x|) + x + (Digits(4, |y|) + y + (Digits(4, |z|) + z))
  {
    assert [x, y, z][1..] == [y, z] && [y, z][1..] == [z] && [z][1..] == [];
    assert Prefixed([z]) == Digits(4, |z|) + z + Prefixed([]);
  }

  const MAX_CLIENT_ID := 256

  /** What every client NewLoginClient returns meets: its issuer parsed as a URL, which no control octet survives, and
      its client ID is the one NewVerifier limited. Nothing bounds the issuer or the redirect URI. */
  ghost predicate Admissible(id: Identity) {
    (forall i :: 0 <= i < |id.issuer| ==> id.issuer[i] != 0) && |id.clientID| <= MAX_CLIENT_ID
  }

  lemma ShortPrefix(n: nat)
    requires n <= MAX_CLIENT_ID
    ensures Digits(4, n)[0] == 0
  {
    assert Digits(3, n / 256) == Digits(2, n / 256 / 256) + [n / 256 % 256];
    assert Digits(2, n / 256 / 256) == Digits(1, n / 256 / 256 / 256) + [n / 256 / 256 % 256];
    assert Digits(1, 0) == Digits(0, 0) + [0];
  }

  /** A zero octet after the shorter of two heads would have to be inside the longer one. */
  lemma HeadEndsAtZero(a: Bytes, b: Bytes, r: Bytes, s: Bytes)
    requires a + r == b + s && r != [] && r[0] == 0 && (forall i :: 0 <= i < |b| ==> b[i] != 0)
    ensures |b| <= |a|
  {
    assert (a + r)[|a|] == 0;
    assert (b + s)[|a|] == 0;
  }

  /** Any two identities a client can have are told apart, whatever their lengths. */
  lemma AdmissibleInjective(a: Identity, b: Identity)
    requires Admissible(a) && Admissible(b) && Prefixed(Parts(a)) == Prefixed(Parts(b))
    ensures a == b
  {
    var (lastA, lastB) := (Digits(4, |a.redirectURI|) + a.redirectURI, Digits(4, |b.redirectURI|) + b.redirectURI);
    var (restA, restB) := (Digits(4, |a.clientID|) + a.clientID + lastA, Digits(4, |b.clientID|) + b.clientID + lastB);
    PrefixedOf3(a.issuer, a.clientID, a.redirectURI);
    PrefixedOf3(b.issuer, b.clientID, b.redirectURI);
    Assoc(Digits(4, |a.issuer|), a.issuer, restA);
    Assoc(Digits(4, |b.issuer|), b.issuer, restB);
    SameHead(Digits(4, |a.issuer|), Digits(4, |b.issuer|), a.issuer + restA, b.issuer + restB);
    ShortPrefix(|a.clientID|);
    ShortPrefix(|b.clientID|);
    HeadEndsAtZero(a.issuer, b.issuer, restA, restB);
    HeadEndsAtZero(b.issuer, a.issuer, restB, restA);
    SameHead(a.issuer, b.issuer, restA, restB);
    FirstPart(a.clientID, b.clientID, lastA, lastB);
    SameHead(Digits(4, |a.redirectURI|), Digits(4, |b.redirectURI|), a.redirectURI, b.redirectURI);
  }
}

/** Seal and Open over an ideal AEAD: what the key has sealed is known, and nothing else opens. */
module Codec {
  import opened Octets
  import opened Base64Url
  import opened LoginClock
  import opened Login
  import opened LockedStore
  import opened CodecFormat

  const VERSION: byte := 1
  const NONCE_SIZE := 12
  const BOX_SIZE := PLAIN_SIZE + 16
  const SEALED_SIZE := 1 + NONCE_SIZE + BOX_SIZE

  /** Nonce and ciphertext, and what they were made from. */
  type Records = map<(Bytes, Bytes), (Bytes, Bytes)>

  function Aad(hash: Bytes -> Bytes, id: Identity): Bytes {
    hash(Prefixed(Parts(id)))
  }

  /** aead.Open: the plaintext, if exactly this nonce, ciphertext and associated data were sealed together. */
  function OpenBox(records: Records, nonce: Bytes, box: Bytes, aad: Bytes): Option<Bytes> {
    if (nonce, box) in records && records[(nonce, box)].1 == aad then Some(records[(nonce, box)].0) else None
  }

  predicate ValidFields(f: Fields) {
    DecodeBinding(f.state).Some? && DecodeBinding(f.nonce).Some? && DecodeBinding(f.verifier).Some?
  }

  /** The three fields are what Begin draws: the encodings of three secrets of 32 octets. */
  lemma ValidFieldsExactly(f: Fields)
    ensures ValidFields(f) <==>
              exists a, b, c :: |a| == |b| == |c| == 32 && f.state == Encode(a) && f.nonce == Encode(b) && f.verifier == Encode(c)
  {
    if ValidFields(f) {
      var (a, b, c) := (DecodeBinding(f.state).value, DecodeBinding(f.nonce).value, DecodeBinding(f.verifier).value);
      BindingInverse(f.state, a);
      BindingInverse(f.nonce, b);
      BindingInverse(f.verifier, c);
    }
    if a, b, c :| |a| == |b| == |c| == 32 && f.state == Encode(a) && f.nonce == Encode(b) && f.verifier == Encode(c) {
      BindingInverse(f.state, a);
      BindingInverse(f.nonce, b);
      BindingInverse(f.verifier, c);
    }
  }

  function IdentityOf(client: LoginClient): Identity {
    Identity(client.issuer, client.clientID, client.redirectURI)
  }

  /** Two clients have one identity exactly when issuer, client ID and redirect URI agree. */
  lemma SameIdentity(a: LoginClient, b: LoginClient)
    ensures IdentityOf(a) == IdentityOf(b) <==>
              a.issuer == b.issuer && a.clientID == b.clientID && a.redirectURI == b.redirectURI
  {
  }

  function FieldsOf(t: Transaction): Fields {
    Fields(t.state, t.nonce, t.verifier, t.createdAt)
  }

  /** What Open restores from `sealed` for a client with this identity at this instant. */
  function Restored(records: Records, hash: Bytes -> Bytes, id: Identity, sealed: Bytes, now: int): Option<Fields> {
    if |sealed| != SEALED_SIZE || sealed[0] != VERSION then None
    else
      var plaintext := OpenBox(records, sealed[1..13], sealed[13..], Aad(hash, id));
      if plaintext.None? || |plaintext.value| != PLAIN_SIZE then None
      else
        var f := ParsePlaintext(plaintext.value);
        if ValidFields(f) && ValidTransactionTime(now, f.createdAt) then Some(f) else None
  }

  function SealedBytes(nonce: Bytes, box: Bytes): Bytes {
    [VERSION] + nonce + box
  }

  /** transactionAAD: feeds each part to the hash behind its length. */
  method TransactionAad(hash: Bytes -> Bytes, client: LoginClient) returns (aad: Bytes)
    ensures aad == Aad(hash, IdentityOf(client))
    ensures aad == hash(Digits(4, |client.issuer|) + client.issuer +
                        (Digits(4, |client.clientID|) + client.clientID +
                         (Digits(4, |client.redirectURI|) + client.redirectURI)))
  {
    var parts := [client.issuer, client.clientID, client.redirectURI];
    var written: Bytes := [];
    for i := 0 to |parts|
      invariant written + Prefixed(parts[i..]) == Prefixed(parts)
    {
      ghost var next := Digits(4, |parts[i]|) + parts[i];
      assert parts[i..][1..] == parts[i + 1..];
      Assoc(written, next, Prefixed(parts[i + 1..]));
      written := written + (Digits(4, |parts[i]|) + parts[i]);
    }
    assert parts[|parts|..] == [] && written + [] == written;
    PrefixedOf3(client.issuer, client.clientID, client.redirectURI);
    aad := hash(written);
  }

  class TransactionCodec {
    const hash: Bytes -> Bytes
    var records: Records
    // Every record Seal has returned, with the client identity and the fields it was made from.
    ghost var issued: map<Bytes, (Identity, Fields)>

    ghost predicate Valid()
      reads this
    {
      Injective(hash) && Consistent(records, issued, hash)
    }

    constructor (hash: Bytes -> Bytes)
      requires Injective(hash)
      ensures Valid() && issued == map[] && this.hash == hash
    {
      this.hash := hash;
      this.records, this.issued := map[], map[];
    }

    /** aead.Seal: from now on this nonce and box open to this plaintext under this associated data. */
    method Encrypt(nonce: Bytes, box: Bytes, plaintext: Bytes, aad: Bytes, ghost id: Identity, ghost f: Fields)
      requires Valid() && ValidFields(f) && plaintext == Plaintext(f) && aad == Aad(hash, id)
      requires |nonce| == NONCE_SIZE && |box| == BOX_SIZE && (nonce, box) !in records
      modifies this
      ensures Valid() && records == old(records)[(nonce, box) := (plaintext, aad)]
      ensures SealedBytes(nonce, box) !in old(issued) && issued == old(issued)[SealedBytes(nonce, box) := (id, f)]
    {
      NotIssuedBefore(records, issued, hash, nonce, box);
      AllIssuedKept(records, issued, hash, nonce, box, id, f);
      AllKnownKept(records, issued, nonce, box, (plaintext, aad), (id, f));
      records := records[(nonce, box) := (plaintext, aad)];
      issued := issued[SealedBytes(nonce, box) := (id, f)];
    }

    /** Seal. `entropy` says whether the random source delivered; nonce and box are what it and the ideal cipher chose. */
    method Seal(t: Transaction?, now: int, entropy: bool, nonce: Bytes, box: Bytes) returns (sealed: Option<Bytes>)
      requires Valid()
      requires |nonce| == NONCE_SIZE && |box| == BOX_SIZE && (nonce, box) !in records
      modifies this
      ensures Valid()
      ensures sealed.Some? <==>
                && t != null && t.owner != null && !t.used && ValidFields(FieldsOf(t))
                && ValidTransactionTime(now, t.createdAt) && entropy
      ensures sealed.Some? ==>
                && sealed.value == SealedBytes(nonce, box) && sealed.value !in old(issued)
                && |sealed.value| == 166 && sealed.value[0] == 1 && sealed.value[1..13] == nonce && sealed.value[13..] == box
                && issued == old(issued)[sealed.value := (IdentityOf(t.owner), FieldsOf(t))]
      ensures sealed.None? ==> issued == old(issued) && records == old(records)
    {
      if t == null || t.owner == null || t.used || !ValidFields(FieldsOf(t)) {
        return None;
      }
      if !ValidTransactionTime(now, t.createdAt) || !entropy {
        return None;
      }
      var aad := TransactionAad(hash, t.owner);
      var plaintext := t.state + t.nonce + t.verifier + Digits(8, ToUint64(t.createdAt));
      Encrypt(nonce, box, plaintext, aad, IdentityOf(t.owner), FieldsOf(t));
      SplitSealed(nonce, box);
      sealed := Some([VERSION] + nonce + box);
    }

    /** Open: a new, unused transaction for this client, or nothing. */
    method Open(client: LoginClient?, sealed: Bytes, now: int) returns (t: Transaction?)
      requires Valid()
      ensures client == null ==> t == null
      ensures client != null ==>
                var f := Restored(records, hash, IdentityOf(client), sealed, now);
                && (t != null <==> f.Some?)
                && (t != null ==> fresh(t) && t.owner == client && FieldsOf(t) == f.value && !t.used)
    {
      if client == null || |sealed| != SEALED_SIZE || sealed[0] != VERSION {
        return null;
      }
      var aad := TransactionAad(hash, client);
      var plaintext := OpenBox(records, sealed[1..13], sealed[13..], aad);
      if plaintext.None? || |plaintext.value| != PLAIN_SIZE {
        return null;
      }
      var f := ParsePlaintext(plaintext.value);
      if !ValidFields(f) || !ValidTransactionTime(now, f.createdAt) {
        return null;
      }
      t := new Transaction(client, f.state, f.nonce, f.verifier, f.createdAt);
    }
  }

  /** One record made by Seal, seen from both sides. */
  ghost predicate Issued(records: Records, hash: Bytes -> Bytes, sealed: Bytes, id: Identity, f: Fields) {
    && |sealed| == SEALED_SIZE && sealed[0] == VERSION
    && (sealed[1..13], sealed[13..]) in records
    && records[(sealed[1..13], sealed[13..])] == (Plaintext(f), Aad(hash, id))
    && ValidFields(f)
  }

  ghost predicate AllIssued(records: Records, issued: map<Bytes, (Identity, Fields)>, hash: Bytes -> Bytes) {
    forall b :: b in issued ==> Issued(records, hash, b, issued[b].0, issued[b].1)
  }

  lemma IssuedIn(records: Records, issued: map<Bytes, (Identity, Fields)>, hash: Bytes -> Bytes, sealed: Bytes)
    requires Consistent(records, issued, hash) && sealed in issued
    ensures Issued(records, hash, sealed, issued[sealed].0, issued[sealed].1)
  {
  }

  ghost predicate Known(issued: map<Bytes, (Identity, Fields)>, nonce: Bytes, box: Bytes) {
    |nonce| == NONCE_SIZE && |box| == BOX_SIZE && SealedBytes(nonce, box) in issued
  }

  ghost predicate AllKnown(records: Records, issued: map<Bytes, (Identity, Fields)>) {
    forall k :: k in records ==> Known(issued, k.0, k.1)
  }

  /** The records are exactly the ones issued. */
  ghost predicate Consistent(records: Records, issued: map<Bytes, (Identity, Fields)>, hash: Bytes -> Bytes) {
    AllIssued(records, issued, hash) && AllKnown(records, issued)
  }

  lemma SplitSealed(nonce: Bytes, box: Bytes)
    requires |nonce| == NONCE_SIZE && |box| == BOX_SIZE
    ensures var b := SealedBytes(nonce, box);
            |b| == SEALED_SIZE && b[0] == VERSION && b[1..13] == nonce && b[13..] == box
  {
  }

  lemma JoinSealed(b: Bytes)
    requires |b| == SEALED_SIZE && b[0] == VERSION
    ensures b == SealedBytes(b[1..13], b[13..])
  {
  }

  /** A record under another key does not disturb one that was issued. */
  lemma IssuedKept(records: Records, hash: Bytes -> Bytes, sealed: Bytes, id: Identity, f: Fields,
                   nonce: Bytes, box: Bytes, value: (Bytes, Bytes))
    requires Issued(records, hash, sealed, id, f) && (nonce, box) !in records
    ensures Issued(records[(nonce, box) := value], hash, sealed, id, f)
  {
  }

  lemma NewIssued(records: Records, hash: Bytes -> Bytes, nonce: Bytes, box: Bytes, id: Identity, f: Fields)
    requires ValidFields(f) && |nonce| == NONCE_SIZE && |box| == BOX_SIZE
    ensures Issued(records[(nonce, box) := (Plaintext(f), Aad(hash, id))], hash, SealedBytes(nonce, box), id, f)
  {
    SplitSealed(nonce, box);
  }

  lemma NotIssuedBefore(records: Records, issued: map<Bytes, (Identity, Fields)>, hash: Bytes -> Bytes,
                        nonce: Bytes, box: Bytes)
    requires AllIssued(records, issued, hash)
    requires |nonce| == NONCE_SIZE && |box| == BOX_SIZE && (nonce, box) !in records
    ensures SealedBytes(nonce, box) !in issued
  {
  }

  lemma AllIssuedKept(records: Records, issued: map<Bytes, (Identity, Fields)>, hash: Bytes -> Bytes,
                      nonce: Bytes, box: Bytes, id: Identity, f: Fields)
    requires AllIssued(records, issued, hash) && ValidFields(f)
    requires |nonce| == NONCE_SIZE && |box| == BOX_SIZE && (nonce, box) !in records
    ensures AllIssued(records[(nonce, box) := (Plaintext(f), Aad(hash, id))], issued[SealedBytes(nonce, box) := (id, f)], hash)
  {
    NewIssued(records, hash, nonce, box, id, f);
    var value := (Plaintext(f), Aad(hash, id));
    forall c | c in issued
      ensures Issued(records[(nonce, box) := value], hash, c, issued[c].0, issued[c].1)
    {
      IssuedKept(records, hash, c, issued[c].0, issued[c].1, nonce, box, value);
    }
  }

  lemma AllKnownKept(records: Records, issued: map<Bytes, (Identity, Fields)>, nonce: Bytes, box: Bytes,
                     value: (Bytes, Bytes), entry: (Identity, Fields))
    requires AllKnown(records, issued) && |nonce| == NONCE_SIZE && |box| == BOX_SIZE
    ensures AllKnown(records[(nonce, box) := value], issued[SealedBytes(nonce, box) := entry])
  {
  }

  lemma SecretsAre43(f: Fields)
    requires ValidFields(f)
    ensures ThreeSecrets(f)
  {
  }

  /** The associated data separates the identities of any two clients. */
  lemma AadSeparates(hash: Bytes -> Bytes, a: Identity, b: Identity)
    requires Injective(hash) && Admissible(a) && Admissible(b)
    ensures Aad(hash, a) == Aad(hash, b) <==> a == b
  {
    if Aad(hash, a) == Aad(hash, b) {
      AdmissibleInjective(a, b);
    }
  }

  lemma IssuedRestored(records: Records, hash: Bytes -> Bytes, id: Identity, sealed: Bytes, now: int, f: Fields)
    requires Issued(records, hash, sealed, id, f)
    ensures Restored(records, hash, id, sealed, now) ==
            if ValidTransactionTime(now, Wrapped(f.createdAt)) then Some(f.(createdAt := Wrapped(f.createdAt))) else None
  {
    SecretsAre43(f);
    PlaintextRoundTrip(f);
  }

  /** Open restores exactly what Seal sealed: any bytes Seal never returned, any client that differs in issuer, client ID
      or redirect URI, and any instant outside the validity window restore nothing; in every other case state, nonce,
      verifier and creation time come back, the last as far as int64 nanoseconds carry it (WrappedExact). */
  lemma OpensExactlyWhatWasSealed(records: Records, issued: map<Bytes, (Identity, Fields)>, hash: Bytes -> Bytes,
                                  id: Identity, sealed: Bytes, now: int)
    requires Injective(hash) && Consistent(records, issued, hash)
    requires Admissible(id) && forall b :: b in issued ==> Admissible(issued[b].0)
    ensures Restored(records, hash, id, sealed, now) ==
            if sealed in issued && issued[sealed].0 == id && ValidTransactionTime(now, Wrapped(issued[sealed].1.createdAt))
            then Some(issued[sealed].1.(createdAt := Wrapped(issued[sealed].1.createdAt)))
            else None
  {
    if sealed in issued {
      var (maker, f) := issued[sealed];
      assert Issued(records, hash, sealed, maker, f);
      AadSeparates(hash, id, maker);
      if id == maker {
        IssuedRestored(records, hash, id, sealed, now, f);
      }
    } else if |sealed| == SEALED_SIZE && sealed[0] == VERSION {
      JoinSealed(sealed);
      assert !Known(issued, sealed[1..13], sealed[13..]);
    }
  }
}

/** Seal and Open together: for whom a record opens, and that opening does not use it up. */
module Reopening {
  import opened Octets
  import opened LoginClock
  import opened Login
  import opened LockedStore
  import opened CodecFormat
  import opened Codec

  /** Whom a record opens for: sealed for its owner, it opens for another client exactly when issuer, client ID and
      redirect URI agree, at exactly the instants inside the window, and then with the sealed fields. */
  method SealThenOpen(codec: TransactionCodec, t: Transaction, sealedAt: int, nonce: Bytes, box: Bytes,
                      client: LoginClient, openedAt: int)
    returns (restored: Transaction?)
    requires codec.Valid() && |nonce| == NONCE_SIZE && |box| == BOX_SIZE && (nonce, box) !in codec.records
    requires t.owner != null && !t.used && ValidFields(FieldsOf(t)) && ValidTransactionTime(sealedAt, t.createdAt)
    requires Admissible(IdentityOf(t.owner)) && Admissible(IdentityOf(client)) && -TWO_63 <= t.createdAt < TWO_63
    modifies codec
    ensures restored != null <==>
              && client.issuer == t.owner.issuer && client.clientID == t.owner.clientID
              && client.redirectURI == t.owner.redirectURI && ValidTransactionTime(openedAt, t.createdAt)
    ensures restored != null ==>
              && restored.owner == client && !restored.used && restored.state == t.state && restored.nonce == t.nonce
              && restored.verifier == t.verifier && restored.createdAt == t.createdAt
  {
    var sealed := codec.Seal(t, sealedAt, true, nonce, box);
    IssuedIn(codec.records, codec.issued, codec.hash, sealed.value);
    SameIdentity(client, t.owner);
    RestoredFor(codec.records, codec.hash, IdentityOf(t.owner), IdentityOf(client), sealed.value, openedAt, FieldsOf(t));
    restored := codec.Open(client, sealed.value, openedAt);
  }

  lemma RestoredFor(records: Records, hash: Bytes -> Bytes, maker: Identity, id: Identity, sealed: Bytes, now: int, f: Fields)
    requires Injective(hash) && Admissible(maker) && Admissible(id) && Issued(records, hash, sealed, maker, f)
    requires -TWO_63 <= f.createdAt < TWO_63
    ensures Restored(records, hash, id, sealed, now) ==
            if id == maker && ValidTransactionTime(now, f.createdAt) then Some(f) else None
  {
    AadSeparates(hash, id, maker);
    WrappedExact(f.createdAt);
    if id == maker {
      IssuedRestored(records, hash, id, sealed, now, f);
    }
  }

  lemma RestoredWhole(records: Records, hash: Bytes -> Bytes, id: Identity, sealed: Bytes, now: int, f: Fields)
    requires Issued(records, hash, sealed, id, f) && -TWO_63 <= f.createdAt < TWO_63
    requires ValidTransactionTime(now, f.createdAt)
    ensures Restored(records, hash, id, sealed, now) == Some(f)
  {
    WrappedExact(f.createdAt);
    IssuedRestored(records, hash, id, sealed, now, f);
  }

  method Present(t: Transaction, client: LoginClient, now: int, callback: Callback) returns (exchanged: bool)
    requires t.owner == client && !t.used && Fresh(now, t.createdAt) && CallbackOk(callback, t.state)
    modifies t
    ensures exchanged && t.used
  {
    exchanged := Complete(client, true, t, now, now, callback);
  }

  /** Opens an issued record for the client that sealed it and presents the transaction to complete. */
  method OpenAndPresent(codec: TransactionCodec, client: LoginClient, sealed: Bytes, openedAt: int, presentedAt: int,
                        callback: Callback, ghost f: Fields)
    returns (t: Transaction?, exchanged: bool)
    requires codec.Valid() && Issued(codec.records, codec.hash, sealed, IdentityOf(client), f)
    requires -TWO_63 <= f.createdAt < TWO_63 && ValidTransactionTime(openedAt, f.createdAt)
    requires Fresh(presentedAt, f.createdAt) && CallbackOk(callback, f.state)
    ensures t != null && fresh(t) && FieldsOf(t) == f && t.owner == client && exchanged
  {
    RestoredWhole(codec.records, codec.hash, IdentityOf(client), sealed, openedAt, f);
    t := codec.Open(client, sealed, openedAt);
    exchanged := Present(t, client, presentedAt, callback);
  }

  /** Seal once, open and present, then open the same record again and present: two distinct transactions with the same
      fields, and both are exchanged. Whatever the transaction and whatever the instants inside the window. */
  method OpenedTwice(codec: TransactionCodec, t: Transaction, sealedAt: int, nonce: Bytes, box: Bytes,
                     openedAt: (int, int), presentedAt: (int, int), callback: Callback)
    returns (first: Transaction?, second: Transaction?, exchanged: bool, again: bool)
    requires codec.Valid() && |nonce| == NONCE_SIZE && |box| == BOX_SIZE && (nonce, box) !in codec.records
    requires t.owner != null && !t.used && ValidFields(FieldsOf(t)) && -TWO_63 <= t.createdAt < TWO_63
    requires ValidTransactionTime(sealedAt, t.createdAt)
    requires ValidTransactionTime(openedAt.0, t.createdAt) && ValidTransactionTime(openedAt.1, t.createdAt)
    requires Fresh(presentedAt.0, t.createdAt) && Fresh(presentedAt.1, t.createdAt)
    requires CallbackOk(callback, t.state)
    modifies codec
    ensures first != null && second != null && first != second && first != t && second != t
    ensures FieldsOf(first) == FieldsOf(t) == FieldsOf(second) && first.owner == second.owner == t.owner
    ensures exchanged && again
  {
    ghost var f := FieldsOf(t);
    var sealed := codec.Seal(t, sealedAt, true, nonce, box);
    IssuedIn(codec.records, codec.issued, codec.hash, sealed.value);
    first, exchanged := OpenAndPresent(codec, t.owner, sealed.value, openedAt.0, presentedAt.0, callback, f);
    second, again := OpenAndPresent(codec, t.owner, sealed.value, openedAt.1, presentedAt.1, callback, f);
  }
}
