/** The pending-login protocol under concurrency: any number of callers of Put, Take, Seal and complete, interleaved at
    every point where another goroutine can be observed. The store's mutex serialises its critical sections; the `used`
    flags are atomics outside it. A run is any sequence of enabled actions. Browser bindings appear as the secrets they
    spell (Base64Url.BindingInverse), transactions and calls as numbers. */
module LoginProtocol {
  import opened Octets
  import opened LoginClock
  import opened PendingLogins

  /** The fields of a transaction that never change. The owner is missing in a zero value. */
  datatype Tx = Tx(owner: Option<nat>, state: Bytes, createdAt: int)

  /** A stored transaction and the Put call that stored it. */
  datatype Ticket = Ticket(tx: nat, put: nat)

  /** How far a call has come. The first group holds the mutex. */
  datatype Call =
    | PutPruning(tx: nat, secret: Bytes, cutoff: int, todo: set<Bytes>)
    | PutReady(tx: nat, secret: Bytes, pruned: bool)
    | TakeHolding(state: Bytes, secret: Bytes, ticket: Ticket, now: int)
    | PutWaiting(tx: nat, secret: Bytes)
    | PutDone(tx: nat, secret: Bytes)
    | Taken(state: Bytes, secret: Bytes, ticket: Ticket, now: int)
    | Swapped(tx: nat)
    | Aged(tx: nat, now: int)
    | Exchanged(tx: nat, now: int, later: int)
    | Spent(tx: nat)
    | Sealed(tx: nat, now: int)
    | Refused

  datatype State = State(
    capacity: nat,
    clock: int,
    txs: map<nat, Tx>,
    used: set<nat>,
    store: Pending<Ticket>,
    mutex: Option<nat>,
    calls: map<nat, Call>)

  datatype Action =
    | Tick(now: int)
    | Create(tx: nat, fields: Tx) // Begin or Open
    | PutStart(call: nat, tx: nat, secret: Bytes)
    | PutLock(call: nat)
    | PruneOne(call: nat, state: Bytes)
    | PruneEnd(call: nat)
    | PutInsert(call: nat)
    | TakeLookup(call: nat, state: Bytes, secret: Bytes)
    | TakeFinish(call: nat)
    | CompleteSwap(call: nat, client: nat, hasContext: bool, tx: nat)
    | CompleteAge(call: nat)
    | CompleteExchange(call: nat, callbackOk: bool)
    | Seal(call: nat, tx: nat, wellFormed: bool)

  predicate Enabled(s: State, a: Action) {
    match a
    case Tick(now) => s.clock <= now
    case Create(tx, _) => tx !in s.txs
    case PutStart(c, tx, _) => c !in s.calls && tx in s.txs
    case PutLock(c) => s.mutex.None? && c in s.calls && s.calls[c].PutWaiting?
    case PruneOne(c, state) => c in s.calls && s.calls[c].PutPruning? && state in s.calls[c].todo
    case PruneEnd(c) => c in s.calls && s.calls[c].PutPruning? && s.calls[c].todo == {}
    case PutInsert(c) => c in s.calls && s.calls[c].PutReady?
    case TakeLookup(c, _, _) => s.mutex.None? && c !in s.calls
    case TakeFinish(c) => c in s.calls && s.calls[c].TakeHolding?
    case CompleteSwap(c, _, _, tx) => c !in s.calls && tx in s.txs
    case CompleteAge(c) => c in s.calls && s.calls[c].Swapped?
    case CompleteExchange(c, _) => c in s.calls && s.calls[c].Aged?
    case Seal(c, tx, _) => c !in s.calls && tx in s.txs
  }

  function Set(s: State, c: nat, call: Call): State {
    s.(calls := s.calls[c := call])
  }

  /** The call has won the swap and not failed since. */
  predicate Winner(call: Call) {
    call.Swapped? || call.Aged? || call.Exchanged?
  }

  /** Put's tests before the mutex, including its load of the flag. */
  function DoPutStart(s: State, c: nat, tx: nat, secret: Bytes): State
    requires tx in s.txs
  {
    var ok := Storable(s.txs[tx]) && tx !in s.used;
    Set(s, c, if ok then PutWaiting(tx, secret) else Refused)
  }

  function DoPutLock(s: State, c: nat): (t: State)
    requires c in s.calls && s.calls[c].PutWaiting?
    ensures c in t.calls && !Winner(t.calls[c]) && t.calls == s.calls[c := t.calls[c]]
    ensures t.txs == s.txs && t.used == s.used && t.clock == s.clock && t.capacity == s.capacity
  {
    var PutWaiting(tx, secret) := s.calls[c];
    Set(s, c, if |s.store| >= s.capacity then PutPruning(tx, secret, s.clock, s.store.Keys) else PutReady(tx, secret, false))
      .(mutex := Some(c))
  }

  /** One iteration of pruneExpired, with its own load of that entry's flag. */
  function DoPruneOne(s: State, c: nat, state: Bytes): (t: State)
    requires Inv(s) && c in s.calls && s.calls[c].PutPruning?
    ensures c in t.calls && !Winner(t.calls[c]) && t.calls == s.calls[c := t.calls[c]]
    ensures t.txs == s.txs && t.used == s.used && t.clock == s.clock && t.capacity == s.capacity
  {
    var call := s.calls[c];
    var next := Set(s, c, call.(todo := call.todo - {state}));
    assert SlotOk(s, state);
    if state in s.store && DeadAt(s, s.store[state].transaction, call.cutoff) then next.(store := s.store - {state}) else next
  }

  predicate DeadAt(s: State, ticket: Ticket, now: int)
    requires ticket.tx in s.txs
  {
    Expired(now, s.txs[ticket.tx].createdAt) || ticket.tx in s.used
  }

  function DoPutInsert(s: State, c: nat): (t: State)
    requires Inv(s) && c in s.calls && s.calls[c].PutReady?
    ensures c in t.calls && !Winner(t.calls[c]) && t.calls == s.calls[c := t.calls[c]]
    ensures t.txs == s.txs && t.used == s.used && t.clock == s.clock && t.capacity == s.capacity
  {
    var PutReady(tx, secret, _) := s.calls[c];
    assert CallOk(s, c);
    var fields := s.txs[tx];
    if Fresh(s.clock, fields.createdAt) && fields.state !in s.store && |s.store| < s.capacity then
      Set(s, c, PutDone(tx, secret)).(store := s.store[fields.state := Slot(Ticket(tx, c), secret)], mutex := None)
    else
      Set(s, c, Refused).(mutex := None)
  }

  /** Take up to its first load of the flag. Without a next step to take it releases the mutex at once. */
  function DoTakeLookup(s: State, c: nat, state: Bytes, secret: Bytes): (t: State)
    requires Inv(s)
    ensures c in t.calls && !Winner(t.calls[c]) && t.calls == s.calls[c := t.calls[c]]
    ensures t.txs == s.txs && t.used == s.used && t.clock == s.clock && t.capacity == s.capacity
  {
    if |state| != 43 || state !in s.store then Set(s, c, Refused)
    else
      var ticket := s.store[state].transaction;
      assert SlotOk(s, state);
      if DeadAt(s, ticket, s.clock) then Set(s, c, Refused).(store := s.store - {state})
      else Set(s, c, TakeHolding(state, secret, ticket, s.clock)).(mutex := Some(c))
  }

  /** The rest of Take: the binding comparison, the removal and the second load of the flag. */
  function DoTakeFinish(s: State, c: nat): (t: State)
    requires Inv(s) && c in s.calls && s.calls[c].TakeHolding?
    ensures c in t.calls && !Winner(t.calls[c]) && t.calls == s.calls[c := t.calls[c]]
    ensures t.txs == s.txs && t.used == s.used && t.clock == s.clock && t.capacity == s.capacity
  {
    var TakeHolding(state, secret, ticket, now) := s.calls[c];
    assert CallOk(s, c);
    if s.store[state].secret != secret then Set(s, c, Refused).(mutex := None)
    else
      Set(s, c, if ticket.tx in s.used then Refused else Taken(state, secret, ticket, now))
        .(store := s.store - {state}, mutex := None)
  }

  /** complete up to and including used.Swap(true). */
  function DoCompleteSwap(s: State, c: nat, client: nat, hasContext: bool, tx: nat): State
    requires tx in s.txs
  {
    if !hasContext || s.txs[tx].owner != Some(client) then Set(s, c, Refused)
    else Set(s, c, if tx in s.used then Spent(tx) else Swapped(tx)).(used := s.used + {tx})
  }

  function Do(s: State, a: Action): State
    requires Inv(s) && Enabled(s, a)
  {
    match a
    case Tick(now) => s.(clock := now)
    case Create(tx, fields) => s.(txs := s.txs[tx := fields])
    case PutStart(c, tx, secret) => DoPutStart(s, c, tx, secret)
    case PutLock(c) => DoPutLock(s, c)
    case PruneOne(c, state) => DoPruneOne(s, c, state)
    case PruneEnd(c) => Set(s, c, PutReady(s.calls[c].tx, s.calls[c].secret, true))
    case PutInsert(c) => DoPutInsert(s, c)
    case TakeLookup(c, state, secret) => DoTakeLookup(s, c, state, secret)
    case TakeFinish(c) => DoTakeFinish(s, c)
    case CompleteSwap(c, client, hasContext, tx) => DoCompleteSwap(s, c, client, hasContext, tx)
    case CompleteAge(c) =>
      var tx := s.calls[c].tx;
      assert CallOk(s, c);
      Set(s, c, if Expired(s.clock, s.txs[tx].createdAt) then Spent(tx) else Aged(tx, s.clock))
    case CompleteExchange(c, callbackOk) =>
      var tx := s.calls[c].tx;
      assert CallOk(s, c);
      Set(s, c, if FromFuture(s.clock, s.txs[tx].createdAt) || !callbackOk then Spent(tx)
                else Exchanged(tx, s.calls[c].now, s.clock))
    case Seal(c, tx, wellFormed) =>
      var ok := s.txs[tx].owner.Some? && tx !in s.used && wellFormed && ValidTransactionTime(s.clock, s.txs[tx].createdAt);
      Set(s, c, if ok then Sealed(tx, s.clock) else Refused)
  }

  // ---------------------------------------------------------------- the invariant

  /** The call won the swap on tx and has not failed since. */
  predicate PastGuard(call: Call, tx: nat) {
    Winner(call) && call.tx == tx
  }

  /** The call got as far as the swap on tx. */
  predicate Reached(call: Call, tx: nat) {
    PastGuard(call, tx) || call == Spent(tx)
  }

  ghost predicate OneWinner(s: State) {
    forall c, d, tx | c in s.calls && d in s.calls :: PastGuard(s.calls[c], tx) && PastGuard(s.calls[d], tx) ==> c == d
  }

  /** Begun by a client, with a state of the usual length. */
  predicate Storable(fields: Tx) {
    fields.owner.Some? && |fields.state| == 43
  }

  /** A slot was stored by a finished Put of this transaction with this secret, under the transaction's own state. */
  ghost predicate StoredBy(s: State, state: Bytes, ticket: Ticket, secret: Bytes) {
    && ticket.tx in s.txs && s.txs[ticket.tx].state == state && Storable(s.txs[ticket.tx])
    && ticket.put in s.calls && s.calls[ticket.put] == PutDone(ticket.tx, secret)
  }

  ghost predicate SlotOk(s: State, state: Bytes) {
    state in s.store ==>
      && StoredBy(s, state, s.store[state].transaction, s.store[state].secret)
      && !FromFuture(s.clock, s.txs[s.store[state].transaction.tx].createdAt)
  }

  ghost predicate CallOk(s: State, c: nat) {
    c in s.calls ==>
      match s.calls[c]
      case PutPruning(tx, _, cutoff, _) => tx in s.txs && Storable(s.txs[tx]) && s.mutex == Some(c) && cutoff <= s.clock
      case PutReady(tx, _, pruned) =>
        && tx in s.txs && Storable(s.txs[tx]) && s.mutex == Some(c)
        && (pruned || |s.store| < s.capacity)
      case TakeHolding(state, _, ticket, now) =>
        && s.mutex == Some(c)
        && state in s.store && s.store[state].transaction == ticket
        && ticket.tx in s.txs && Fresh(now, s.txs[ticket.tx].createdAt)
      case Taken(state, secret, ticket, now) =>
        && StoredBy(s, state, ticket, secret)
        && Fresh(now, s.txs[ticket.tx].createdAt)
        && (state in s.store ==> s.store[state].transaction.put != ticket.put)
      case PutWaiting(tx, _) => tx in s.txs && Storable(s.txs[tx])
      case Swapped(tx) => tx in s.txs && tx in s.used
      case Aged(tx, now) => tx in s.txs && tx in s.used && now <= s.clock && !Expired(now, s.txs[tx].createdAt)
      case Exchanged(tx, now, later) =>
        && tx in s.txs && tx in s.used && now <= later <= s.clock
        && !Expired(now, s.txs[tx].createdAt) && !FromFuture(later, s.txs[tx].createdAt)
      case Spent(tx) => tx in s.used
      case Sealed(tx, now) => tx in s.txs && s.txs[tx].owner.Some? && ValidTransactionTime(now, s.txs[tx].createdAt)
      case _ => true
  }

  /** No two finished Takes handed out the product of one Put. */
  ghost predicate OneTakePerPut(s: State) {
    forall c, d | c in s.calls && d in s.calls && s.calls[c].Taken? && s.calls[d].Taken? ::
      s.calls[c].ticket.put == s.calls[d].ticket.put ==> c == d
  }

  ghost predicate Inv(s: State) {
    && |s.store| <= s.capacity
    && OneWinner(s)
    && OneTakePerPut(s)
    && (forall state :: SlotOk(s, state))
    && (forall c :: CallOk(s, c))
  }

  /** What never goes back: transactions keep their fields, flags stay set, time moves on, finished Puts stay finished. */
  ghost predicate Extends(s: State, t: State) {
    && (forall tx :: tx in s.txs ==> tx in t.txs && t.txs[tx] == s.txs[tx])
    && s.used <= t.used && s.clock <= t.clock && s.capacity == t.capacity
    && (forall c :: c in s.calls && s.calls[c].PutDone? ==> c in t.calls && t.calls[c] == s.calls[c])
  }

  /** t is s with call c moved on and slots possibly removed; store and mutex change only if no other call holds it. */
  ghost predicate OnlyCall(s: State, t: State, c: nat) {
    && Extends(s, t)
    && c in t.calls && (forall d :: d != c ==> (d in t.calls <==> d in s.calls))
    && (forall d :: d in s.calls && d != c ==> t.calls[d] == s.calls[d])
    && (forall state :: state in t.store ==> state in s.store && t.store[state] == s.store[state])
    && ((t.mutex == s.mutex && t.store == s.store) || s.mutex == None || s.mutex == Some(c))
  }

  /** The moved call is not a second winner and not a second Take. */
  ghost predicate NotSecond(s: State, t: State, c: nat) {
    && c in t.calls
    && (forall d, tx | d in s.calls && d != c :: PastGuard(s.calls[d], tx) ==> !PastGuard(t.calls[c], tx))
    && (t.calls[c].Taken? ==>
          forall d | d in s.calls && d != c && s.calls[d].Taken? :: s.calls[d].ticket.put != t.calls[c].ticket.put)
  }

  lemma StoredByKept(s: State, t: State, state: Bytes, ticket: Ticket, secret: Bytes)
    requires Extends(s, t) && StoredBy(s, state, ticket, secret)
    ensures StoredBy(t, state, ticket, secret) && t.txs[ticket.tx] == s.txs[ticket.tx]
  {
  }

  lemma CallKept(s: State, t: State, c: nat, d: nat)
    requires Inv(s) && OnlyCall(s, t, c) && d != c
    ensures CallOk(t, d)
  {
    assert CallOk(s, d);
    if d in s.calls && s.calls[d].Taken? {
      StoredByKept(s, t, s.calls[d].state, s.calls[d].ticket, s.calls[d].secret);
    }
  }

  lemma SlotKept(s: State, t: State, state: Bytes)
    requires Extends(s, t) && SlotOk(s, state)
    requires state in t.store ==> state in s.store && t.store[state] == s.store[state]
    ensures SlotOk(t, state)
  {
  }

  lemma MovedCall(s: State, t: State, c: nat)
    requires Inv(s) && OnlyCall(s, t, c) && CallOk(t, c) && NotSecond(s, t, c) && |t.store| <= t.capacity
    ensures Inv(t)
  {
    forall state
      ensures SlotOk(t, state)
    {
      assert SlotOk(s, state);
      SlotKept(s, t, state);
    }
    forall d
      ensures CallOk(t, d)
    {
      if d != c {
        CallKept(s, t, c, d);
      }
    }
  }

  lemma SetMoves(s: State, c: nat, call: Call, store: Pending<Ticket>, mutex: Option<nat>)
    requires c in s.calls ==> !s.calls[c].PutDone?
    requires forall state :: state in store ==> state in s.store && store[state] == s.store[state]
    requires (mutex == s.mutex && store == s.store) || s.mutex == None || s.mutex == Some(c)
    ensures OnlyCall(s, Set(s, c, call).(store := store, mutex := mutex), c)
  {
  }

  lemma SetKeeps(s: State, c: nat, call: Call, store: Pending<Ticket>, mutex: Option<nat>)
    requires Inv(s) && (c in s.calls ==> !s.calls[c].PutDone?) && |store| <= s.capacity
    requires forall state :: state in store ==> state in s.store && store[state] == s.store[state]
    requires (mutex == s.mutex && store == s.store) || s.mutex == None || s.mutex == Some(c)
    requires var t := Set(s, c, call).(store := store, mutex := mutex); CallOk(t, c) && NotSecond(s, t, c)
    ensures Inv(Set(s, c, call).(store := store, mutex := mutex))
  {
    SetMoves(s, c, call, store, mutex);
    MovedCall(s, Set(s, c, call).(store := store, mutex := mutex), c);
  }

  lemma FewerSlots(s: State, state: Bytes)
    ensures |s.store - {state}| <= |s.store|
  {
    Fewer((s.store - {state}).Keys, s.store.Keys);
  }

  // ---------------------------------------------------------------- every action keeps it

  lemma QuietKeeps(s: State, t: State)
    requires Inv(s) && Extends(s, t) && t.calls == s.calls && t.store == s.store && t.mutex == s.mutex
    ensures Inv(t)
  {
    forall state
      ensures SlotOk(t, state)
    {
      assert SlotOk(s, state);
      SlotKept(s, t, state);
    }
    forall c
      ensures CallOk(t, c)
    {
      assert CallOk(s, c);
      if c in s.calls && s.calls[c].Taken? {
        StoredByKept(s, t, s.calls[c].state, s.calls[c].ticket, s.calls[c].secret);
      }
    }
  }

  lemma PutStartKeeps(s: State, c: nat, tx: nat, secret: Bytes)
    requires Inv(s) && Enabled(s, PutStart(c, tx, secret))
    ensures Inv(DoPutStart(s, c, tx, secret))
  {
    MovedCall(s, DoPutStart(s, c, tx, secret), c);
  }

  lemma PutLockKeeps(s: State, c: nat)
    requires Inv(s) && Enabled(s, PutLock(c))
    ensures Inv(DoPutLock(s, c))
  {
    assert CallOk(s, c);
    MovedCall(s, DoPutLock(s, c), c);
  }

  lemma PruneOneKeeps(s: State, c: nat, state: Bytes)
    requires Inv(s) && Enabled(s, PruneOne(c, state))
    ensures Inv(DoPruneOne(s, c, state))
  {
    assert CallOk(s, c);
    FewerSlots(s, state);
    MovedCall(s, DoPruneOne(s, c, state), c);
  }

  /** The one action that adds a slot. Its call is unfinished, so no ticket names it yet. */
  lemma PutInsertKeeps(s: State, c: nat)
    requires Inv(s) && Enabled(s, PutInsert(c))
    ensures Inv(DoPutInsert(s, c))
  {
    assert CallOk(s, c);
    var t := DoPutInsert(s, c);
    var PutReady(tx, secret, _) := s.calls[c];
    if t.calls[c].PutDone? {
      forall state
        ensures SlotOk(t, state)
      {
        assert SlotOk(s, state);
      }
      forall d
        ensures CallOk(t, d)
      {
        assert CallOk(s, d);
      }
    } else {
      MovedCall(s, t, c);
    }
  }

  lemma TakeLookupKeeps(s: State, c: nat, state: Bytes, secret: Bytes)
    requires Inv(s) && Enabled(s, TakeLookup(c, state, secret))
    ensures Inv(DoTakeLookup(s, c, state, secret))
  {
    assert SlotOk(s, state);
    var t := DoTakeLookup(s, c, state, secret);
    if t.calls[c].TakeHolding? {
      SetKeeps(s, c, t.calls[c], s.store, Some(c));
    } else {
      FewerSlots(s, state);
      SetKeeps(s, c, Refused, t.store, s.mutex);
    }
  }

  lemma TakeFinishKeeps(s: State, c: nat)
    requires Inv(s) && Enabled(s, TakeFinish(c))
    ensures Inv(DoTakeFinish(s, c))
  {
    assert CallOk(s, c);
    var TakeHolding(state, secret, ticket, now) := s.calls[c];
    assert SlotOk(s, state);
    FewerSlots(s, state);
    var t := DoTakeFinish(s, c);
    assert t == Set(s, c, t.calls[c]).(store := t.store, mutex := None);
    if t.calls[c].Taken? {
      StoredByKept(s, t, state, ticket, secret);
      forall d | d in s.calls && d != c && s.calls[d].Taken?
        ensures s.calls[d].ticket.put != ticket.put
      {
        assert CallOk(s, d);
      }
    }
    SetKeeps(s, c, t.calls[c], t.store, None);
  }

  lemma CompleteSwapKeeps(s: State, c: nat, client: nat, hasContext: bool, tx: nat)
    requires Inv(s) && Enabled(s, CompleteSwap(c, client, hasContext, tx))
    ensures Inv(DoCompleteSwap(s, c, client, hasContext, tx))
  {
    var t := DoCompleteSwap(s, c, client, hasContext, tx);
    forall d | d in s.calls && PastGuard(s.calls[d], tx)
      ensures tx in s.used
    {
      assert CallOk(s, d);
    }
    MovedCall(s, t, c);
  }

  lemma LaterKeeps(s: State, a: Action)
    requires Inv(s) && Enabled(s, a)
    requires a.PruneEnd? || a.CompleteAge? || a.CompleteExchange? || a.Seal?
    ensures Inv(Do(s, a))
  {
    assert CallOk(s, a.call);
    var t := Do(s, a);
    assert t == Set(s, a.call, t.calls[a.call]);
    SetKeeps(s, a.call, t.calls[a.call], s.store, s.mutex);
  }

  lemma ActionKeeps(s: State, a: Action)
    requires Inv(s) && Enabled(s, a)
    ensures Inv(Do(s, a))
  {
    match a
    case Tick(_) => QuietKeeps(s, Do(s, a));
    case Create(_, _) => QuietKeeps(s, Do(s, a));
    case PutStart(c, tx, secret) => PutStartKeeps(s, c, tx, secret);
    case PutLock(c) => PutLockKeeps(s, c);
    case PruneOne(c, state) => PruneOneKeeps(s, c, state);
    case PutInsert(c) => PutInsertKeeps(s, c);
    case TakeLookup(c, state, secret) => TakeLookupKeeps(s, c, state, secret);
    case TakeFinish(c) => TakeFinishKeeps(s, c);
    case CompleteSwap(c, client, hasContext, tx) => CompleteSwapKeeps(s, c, client, hasContext, tx);
    case _ => LaterKeeps(s, a);
  }

  predicate InStore(a: Action) {
    a.PutLock? || a.PruneOne? || a.PutInsert? || a.TakeLookup? || a.TakeFinish?
  }

  /** An action leaves every call but its own as it was. */
  lemma OtherCallsStand(s: State, a: Action, d: nat)
    requires Inv(s) && Enabled(s, a) && (a.Tick? || a.Create? || a.call != d)
    ensures d in Do(s, a).calls <==> d in s.calls
    ensures d in s.calls ==> Do(s, a).calls[d] == s.calls[d]
  {
  }

  lemma FieldsStand(s: State, a: Action)
    requires Inv(s) && Enabled(s, a)
    ensures var t := Do(s, a);
            && (forall tx :: tx in s.txs ==> tx in t.txs && t.txs[tx] == s.txs[tx])
            && s.used <= t.used && s.clock <= t.clock && s.capacity == t.capacity
  {
  }

  /** No action takes back a flag, a field, an exchange or the passing of time. */
  lemma ActionExtends(s: State, a: Action)
    requires Inv(s) && Enabled(s, a)
    ensures Extends(s, Do(s, a))
    ensures forall c :: c in s.calls && s.calls[c].Exchanged? ==> c in Do(s, a).calls && Do(s, a).calls[c] == s.calls[c]
  {
    FieldsStand(s, a);
    forall c | c in s.calls && (s.calls[c].PutDone? || s.calls[c].Exchanged?)
      ensures c in Do(s, a).calls && Do(s, a).calls[c] == s.calls[c]
    {
      OtherCallsStand(s, a, c);
    }
  }

  /** No living login is evicted: a slot leaves the store only through the Take that named its secret, or because its
      transaction is used or expired by now. */
  lemma OnlyTakenOrDeadLeave(s: State, a: Action, state: Bytes)
    requires Inv(s) && Enabled(s, a) && state in s.store && state !in Do(s, a).store
    ensures SlotOk(s, state)
    ensures DeadAt(s, s.store[state].transaction, s.clock) ||
            (a.TakeFinish? && s.calls[a.call].state == state && s.calls[a.call].secret == s.store[state].secret)
  {
    assert SlotOk(s, state);
    if a.PruneOne? || a.TakeFinish? {
      assert CallOk(s, a.call);
    }
  }

  // ---------------------------------------------------------------- whole runs

  ghost predicate Legal(s: State, run: seq<Action>)
    requires Inv(s)
    decreases |run|
  {
    run == [] || (Enabled(s, run[0]) && (ActionKeeps(s, run[0]); Legal(Do(s, run[0]), run[1..])))
  }

  ghost function Final(s: State, run: seq<Action>): (t: State)
    requires Inv(s) && Legal(s, run)
    ensures Inv(t)
    decreases |run|
  {
    if run == [] then s else (ActionKeeps(s, run[0]); Final(Do(s, run[0]), run[1..]))
  }

  /** An empty store, no transactions, no calls. */
  function Start(capacity: nat, clock: int): (s: State)
    ensures Inv(s)
  {
    State(capacity, clock, map[], {}, map[], None, map[])
  }

  lemma {:induction false} RunExtends(s: State, run: seq<Action>)
    requires Inv(s) && Legal(s, run)
    ensures Extends(s, Final(s, run))
    decreases |run|
  {
    if run != [] {
      ActionKeeps(s, run[0]);
      ActionExtends(s, run[0]);
      RunExtends(Do(s, run[0]), run[1..]);
    }
  }

  /** One use. In every run, at most one complete call per transaction gets past the guard, the flag of every transaction
      any call reached is set, and what was exchanged was within its validity window at the two clock readings. */
  lemma OneUse(capacity: nat, clock: int, run: seq<Action>, c: nat, d: nat, tx: nat)
    requires Legal(Start(capacity, clock), run)
    ensures var s := Final(Start(capacity, clock), run);
            && (c in s.calls && d in s.calls && PastGuard(s.calls[c], tx) && PastGuard(s.calls[d], tx) ==> c == d)
            && (c in s.calls && Reached(s.calls[c], tx) ==> tx in s.used)
            && (c in s.calls && s.calls[c].Exchanged? ==>
                  var Exchanged(tx, now, later) := s.calls[c];
                  tx in s.txs && !Expired(now, s.txs[tx].createdAt) && !FromFuture(later, s.txs[tx].createdAt))
  {
    var s := Final(Start(capacity, clock), run);
    assert CallOk(s, c);
  }

  lemma StoreCallNoWinner(s: State, a: Action, tx: nat)
    requires Inv(s) && Enabled(s, a) && InStore(a)
    ensures a.call in Do(s, a).calls && !PastGuard(Do(s, a).calls[a.call], tx)
  {
  }

  lemma ActionNoNewWinner(s: State, a: Action, d: nat, tx: nat)
    requires Inv(s) && Enabled(s, a) && tx in s.used
    ensures d in Do(s, a).calls && PastGuard(Do(s, a).calls[d], tx) ==> d in s.calls && PastGuard(s.calls[d], tx)
  {
    if a.Tick? || a.Create? || a.call != d {
      OtherCallsStand(s, a, d);
    } else if InStore(a) {
      StoreCallNoWinner(s, a, tx);
    }
  }

  /** Once the flag is set, no later action of any run makes a further call a winner. */
  lemma {:induction false} NoNewWinner(s: State, run: seq<Action>, d: nat, tx: nat)
    requires Inv(s) && Legal(s, run) && tx in s.used
    requires d in Final(s, run).calls && PastGuard(Final(s, run).calls[d], tx)
    ensures d in s.calls && PastGuard(s.calls[d], tx)
    decreases |run|
  {
    if run != [] {
      ActionKeeps(s, run[0]);
      ActionExtends(s, run[0]);
      NoNewWinner(Do(s, run[0]), run[1..], d, tx);
      ActionNoNewWinner(s, run[0], d, tx);
    }
  }

  /** A complete call by the owner with a context consumes the transaction for the rest of every run, whatever becomes
      of the call: the flag stays set, and only a call that had won before, or this one, can ever exchange it. */
  lemma Consumed(s: State, c: nat, client: nat, run: seq<Action>, tx: nat, d: nat)
    requires Inv(s) && Legal(s, run) && run != [] && run[0] == CompleteSwap(c, client, true, tx)
    requires s.txs[tx].owner == Some(client)
    ensures tx in Final(s, run).used
    ensures d in Final(s, run).calls && PastGuard(Final(s, run).calls[d], tx) && d != c ==>
              d in s.calls && PastGuard(s.calls[d], tx)
  {
    ActionKeeps(s, run[0]);
    RunExtends(Do(s, run[0]), run[1..]);
    if d in Final(s, run).calls && PastGuard(Final(s, run).calls[d], tx) {
      NoNewWinner(Do(s, run[0]), run[1..], d, tx);
    }
  }

  /** The store in every run: bounded, keyed by each transaction's own state, every slot owed to one finished Put. */
  lemma StoreBounded(capacity: nat, clock: int, run: seq<Action>, state: Bytes)
    requires Legal(Start(capacity, clock), run)
    ensures var s := Final(Start(capacity, clock), run);
            && |s.store| <= capacity
            && (state in s.store ==>
                  var Slot(ticket, secret) := s.store[state];
                  && ticket.put in s.calls && ticket.tx in s.txs
                  && s.calls[ticket.put] == PutDone(ticket.tx, secret) && s.txs[ticket.tx].state == state)
  {
    RunExtends(Start(capacity, clock), run);
    assert SlotOk(Final(Start(capacity, clock), run), state);
  }

  /** What Take hands out, in every run: the transaction of exactly one finished Put, for the secret given there, never
      twice; and at the instant Take read the clock it passes Put's whole freshness test and both tests of complete,
      although Take itself does not look for creation times in the future. */
  lemma TakenOnceForItsSecret(capacity: nat, clock: int, run: seq<Action>, c: nat, d: nat)
    requires Legal(Start(capacity, clock), run)
    ensures var s := Final(Start(capacity, clock), run);
            c in s.calls && s.calls[c].Taken? ==>
              var Taken(state, secret, ticket, now) := s.calls[c];
              && ticket.put in s.calls && s.calls[ticket.put] == PutDone(ticket.tx, secret)
              && ticket.tx in s.txs && s.txs[ticket.tx].state == state
              && Fresh(now, s.txs[ticket.tx].createdAt)
              && (d in s.calls && s.calls[d].Taken? && s.calls[d].ticket.put == ticket.put ==> c == d)
  {
    assert CallOk(Final(Start(capacity, clock), run), c);
  }

  /** Put, complete and the codec apply one and the same freshness test to every creation time but the zero one. complete
      splits it over two clock readings: what Put would accept at the first passes both halves whenever the second is
      not earlier, and at one instant the halves are the whole test. */
  lemma OneFreshnessTest(now: int, later: int, createdAt: int)
    ensures ValidTransactionTime(now, createdAt) <==> createdAt != ZERO_TIME && Fresh(now, createdAt)
    ensures now > ZERO_TIME + TRANSACTION_LIFETIME ==> (ValidTransactionTime(now, createdAt) <==> Fresh(now, createdAt))
    ensures now <= later && Fresh(now, createdAt) ==> !Expired(now, createdAt) && !FromFuture(later, createdAt)
    ensures Fresh(now, createdAt) <==> now - 300_000_000_000 <= createdAt <= now + 60_000_000_000
    ensures !Expired(now, createdAt) <==> now - 300_000_000_000 <= createdAt
    ensures !FromFuture(now, createdAt) <==> createdAt <= now + 60_000_000_000
  {
  }

  // ---------------------------------------------------------------- per object, not per state string

  /** As long as no two transactions share a state string, a state string is exchanged at most once. */
  lemma OneUsePerState(capacity: nat, clock: int, run: seq<Action>, c: nat, d: nat)
    requires Legal(Start(capacity, clock), run)
    requires var s := Final(Start(capacity, clock), run);
             && (forall t, u :: t in s.txs && u in s.txs && s.txs[t].state == s.txs[u].state ==> t == u)
             && c in s.calls && d in s.calls && s.calls[c].Exchanged? && s.calls[d].Exchanged?
    ensures var s := Final(Start(capacity, clock), run);
            && s.calls[c].tx in s.txs && s.calls[d].tx in s.txs
            && (s.txs[s.calls[c].tx].state == s.txs[s.calls[d].tx].state ==> c == d)
  {
    var s := Final(Start(capacity, clock), run);
    assert CallOk(s, c) && CallOk(s, d);
    assert PastGuard(s.calls[c], s.calls[c].tx) && PastGuard(s.calls[d], s.calls[d].tx);
  }
}
