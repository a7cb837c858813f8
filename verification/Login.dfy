/** Instants and the freshness tests of the login flow. Times are nanoseconds since the Unix epoch; Go's saturating
    Time.Sub never changes the outcome of these comparisons, so plain integers are exact. */
module LoginClock {
  const SECOND := 1_000_000_000
  const TRANSACTION_LIFETIME := 300 * SECOND
  const CLOCK_SKEW := 60 * SECOND
  // The instant whose IsZero is true: 1 January of year 1.
  const ZERO_TIME := -62_135_596_800 * SECOND

  /** now.Sub(createdAt) > transactionLifetime */
  predicate Expired(now: int, createdAt: int) {
    now - createdAt > TRANSACTION_LIFETIME
  }

  /** createdAt.After(now.Add(clockSkew)) */
  predicate FromFuture(now: int, createdAt: int) {
    createdAt > now + CLOCK_SKEW
  }

  /** The test Put makes of a transaction's age. */
  predicate Fresh(now: int, createdAt: int) {
    !Expired(now, createdAt) && !FromFuture(now, createdAt)
  }

  /** validTransactionTime, the test of the codec. */
  predicate ValidTransactionTime(now: int, createdAt: int) {
    createdAt != ZERO_TIME && !(createdAt > now + CLOCK_SKEW) && now - createdAt <= TRANSACTION_LIFETIME
  }
}

/** auth/oidc/login.go: the client snapshot, the one-use transaction and the guard of complete. */
module Login {
  import opened Octets
  import opened Base64Url
  import opened LoginClock

  const MAX_CODE_BYTES := 4096

  /** A client never changes after construction; its configuration is a private copy. */
  class LoginClient {
    const issuer: Bytes
    const clientID: Bytes
    const redirectURI: Bytes
    const validUntil: int

    constructor (issuer: Bytes, clientID: Bytes, redirectURI: Bytes, validUntil: int)
      ensures this.issuer == issuer && this.clientID == clientID && this.redirectURI == redirectURI
      ensures this.validUntil == validUntil
    {
      this.issuer, this.clientID, this.redirectURI, this.validUntil := issuer, clientID, redirectURI, validUntil;
    }
  }

  class Transaction {
    const owner: LoginClient?
    const state: Bytes
    const nonce: Bytes
    const verifier: Bytes
    const createdAt: int
    var used: bool

    constructor (owner: LoginClient?, state: Bytes, nonce: Bytes, verifier: Bytes, createdAt: int)
      ensures this.owner == owner && this.state == state && this.nonce == nonce && this.verifier == verifier
      ensures this.createdAt == createdAt && !used
    {
      this.owner, this.state, this.nonce, this.verifier := owner, state, nonce, verifier;
      this.createdAt, this.used := createdAt, false;
    }
  }

  /** The callback's query values under the three names complete looks at. */
  datatype Callback = Callback(states: seq<Bytes>, codes: seq<Bytes>, errors: seq<Bytes>)

  predicate CallbackOk(callback: Callback, state: Bytes) {
    && |callback.states| == 1 && |callback.codes| == 1 && |callback.errors| == 0
    && callback.codes[0] != [] && |callback.codes[0]| <= MAX_CODE_BYTES
    && callback.states[0] == state
  }

  /** The guards of complete, up to the decision to contact the token endpoint. The swap comes before every test that a
      caller could make fail, so a call that reaches it consumes the transaction whatever happens next. `now` and
      `later` are the two readings of the clock. */
  method Complete(client: LoginClient?, hasContext: bool, t: Transaction?, now: int, later: int, callback: Callback)
    returns (exchange: bool)
    modifies if t == null then {} else {t}
    ensures client != null && hasContext && t != null && t.owner == client ==> t.used
    ensures t != null && !(client != null && hasContext && t.owner == client) ==> t.used == old(t.used)
    ensures exchange <==>
              && client != null && hasContext && t != null && t.owner == client
              && old(!t.used)
              && now <= t.createdAt + 300_000_000_000 && t.createdAt <= later + 60_000_000_000
              && callback.states == [t.state] && callback.errors == []
              && |callback.codes| == 1 && 1 <= |callback.codes[0]| <= 4096
  {
    if client == null || !hasContext || t == null || t.owner != client {
      return false;
    }
    var before := t.used;
    t.used := true;
    if before || Expired(now, t.createdAt) || FromFuture(later, t.createdAt) {
      return false;
    }
    exchange := CallbackOk(callback, t.state);
  }

  /** Begin's staleness test on the configuration the client was built from. */
  predicate MayBegin(validUntil: int, now: int) {
    !(validUntil != ZERO_TIME && !(now < validUntil))
  }

  /** Begin, given what the random source delivered for state, nonce and verifier: a stale configuration or a failing
      source starts no login; otherwise a new, unused transaction whose three values are the encoded secrets, which is
      what Put and Seal go on to test. */
  method Begin(client: LoginClient?, now: int, draws: (Option<Bytes>, Option<Bytes>, Option<Bytes>), later: int)
    returns (t: Transaction?)
    requires forall draw :: (draw == draws.0 || draw == draws.1 || draw == draws.2) && draw.Some? ==>
               |draw.value| == SECRET_BYTES
    ensures t != null <==>
              && client != null && MayBegin(client.validUntil, now)
              && draws.0.Some? && draws.1.Some? && draws.2.Some?
    ensures t != null ==>
              && fresh(t) && t.owner == client && t.createdAt == later && !t.used
              && DecodeBinding(t.state) == draws.0 && DecodeBinding(t.nonce) == draws.1
              && DecodeBinding(t.verifier) == draws.2
  {
    if client == null || (client.validUntil != ZERO_TIME && !(now < client.validUntil)) {
      return null;
    }
    if draws.0.None? || draws.1.None? || draws.2.None? {
      return null;
    }
    var (state, nonce, verifier) := (Encode(draws.0.value), Encode(draws.1.value), Encode(draws.2.value));
    BindingInverse(state, draws.0.value);
    BindingInverse(nonce, draws.1.value);
    BindingInverse(verifier, draws.2.value);
    t := new Transaction(client, state, nonce, verifier, later);
  }
}
