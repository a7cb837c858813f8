/** A bounded map from login states to (transaction, browser secret): what auth/oidc/store.go keeps, without hashes. */
module PendingLogins {
  import opened Octets

  datatype Slot<T> = Slot(transaction: T, secret: Bytes)

  type Pending<T> = map<Bytes, Slot<T>>

  /** The slots whose transactions are not dead. */
  function Living<T>(p: Pending<T>, dead: set<T>): (r: Pending<T>) {
    map s | s in p && p[s].transaction !in dead :: p[s]
  }

  /** Part way through pruning: the states in `todo` have not been looked at. */
  function Pruned<T>(p: Pending<T>, dead: set<T>, todo: set<Bytes>): (r: Pending<T>) {
    map s | s in p && (s in todo || p[s].transaction !in dead) :: p[s]
  }

  lemma PrunedStep<T>(p: Pending<T>, dead: set<T>, todo: set<Bytes>, s: Bytes)
    requires s in todo && s in p
    ensures var r := Pruned(p, dead, todo);
            Pruned(p, dead, todo - {s}) == if p[s].transaction in dead then r - {s} else r
  {
  }

  lemma PrunedEnds<T>(p: Pending<T>, dead: set<T>)
    ensures Pruned(p, dead, p.Keys) == p && Pruned(p, dead, {}) == Living(p, dead)
  {
  }

  lemma LivingSmaller<T>(p: Pending<T>, dead: set<T>)
    ensures Living(p, dead).Keys <= p.Keys && |Living(p, dead)| <= |p|
  {
    Fewer(Living(p, dead).Keys, p.Keys);
  }

  lemma {:induction false} Fewer<T>(a: set<T>, b: set<T>)
    requires a <= b
    ensures |a| <= |b|
  {
    if a != {} {
      var x :| x in a;
      Fewer(a - {x}, b - {x});
    }
  }

  /** Dead slots are dropped only when the map is full. */
  function Room<T>(p: Pending<T>, capacity: nat, dead: set<T>): (r: Pending<T>) {
    if |p| >= capacity then Living(p, dead) else p
  }

  /** Put: after making room, a state in use or a full map refuses. */
  function Put<T>(p: Pending<T>, capacity: nat, dead: set<T>, timely: bool, state: Bytes, slot: Slot<T>)
    : (r: (Pending<T>, bool))
  {
    var q := Room(p, capacity, dead);
    if !timely || state in q || |q| >= capacity then (q, false) else (q[state := slot], true)
  }

  /** Take: a dead slot is removed, a wrong secret changes nothing, the right one hands the transaction out. */
  function Take<T>(p: Pending<T>, dead: set<T>, state: Bytes, secret: Bytes): (r: (Pending<T>, Option<T>)) {
    if state !in p then (p, None)
    else if p[state].transaction in dead then (p - {state}, None)
    else if p[state].secret != secret then (p, None)
    else (p - {state}, Some(p[state].transaction))
  }

  lemma {:induction false} ProperSubset<T>(a: set<T>, b: set<T>, x: T)
    requires a <= b && x in b && x !in a
    ensures |a| < |b|
  {
    Fewer(a, b - {x});
  }

  /** Exactly when Put accepts a timely transaction: below capacity the state must be free, and even a dead slot occupies
      its state; at capacity some slot must be dead, and only then may it be the one with this state. */
  lemma PutAccepts<T>(p: Pending<T>, capacity: nat, dead: set<T>, state: Bytes, slot: Slot<T>)
    requires |p| <= capacity
    ensures Put(p, capacity, dead, true, state, slot).1 <==>
              if |p| < capacity then state !in p
              else (state in p ==> p[state].transaction in dead) && exists s :: s in p && p[s].transaction in dead
  {
    if |p| == capacity {
      var q := Living(p, dead);
      if s :| s in p && p[s].transaction in dead {
        ProperSubset(q.Keys, p.Keys, s);
      } else {
        assert q == p;
      }
    }
  }

  /** The bound holds, no living login is ever evicted or replaced, and nothing but the new slot is added. Below capacity
      nothing leaves; at capacity every dead slot does, whether or not the new one is accepted. */
  lemma PutKeeps<T>(p: Pending<T>, capacity: nat, dead: set<T>, timely: bool, state: Bytes, slot: Slot<T>)
    requires |p| <= capacity
    ensures var (r, ok) := Put(p, capacity, dead, timely, state, slot);
            && |r| <= capacity
            && (forall s :: s in p && p[s].transaction !in dead ==> s in r && r[s] == p[s])
            && (forall s :: s in r && !(ok && s == state) ==> s in p && r[s] == p[s])
            && (ok ==> timely && state in r && r[state] == slot)
            && (|p| < capacity ==> r == if ok then p[state := slot] else p)
            && (|p| == capacity ==> forall s :: s in r && !(ok && s == state) ==> r[s].transaction !in dead)
  {
    LivingSmaller(p, dead);
    var q := Room(p, capacity, dead);
    if state !in q {
      assert q[state := slot].Keys == q.Keys + {state};
    }
  }

  /** Take hands out exactly the living transaction stored under this state with this secret, and leaves every other
      state alone; a wrong secret on a living slot changes nothing, and a dead slot is removed whatever the secret. */
  lemma TakeExact<T>(p: Pending<T>, dead: set<T>, state: Bytes, secret: Bytes, t: T)
    ensures var (r, taken) := Take(p, dead, state, secret);
            && (taken == Some(t) <==> state in p && p[state] == Slot(t, secret) && t !in dead)
            && (forall s :: s != state ==> (s in r <==> s in p) && (s in p ==> r[s] == p[s]))
            && (taken.Some? ==> state !in r)
            && (state in p && p[state].transaction !in dead && p[state].secret != secret ==> r == p)
            && (state in p && p[state].transaction in dead ==> r == p - {state})
            && (state !in p ==> r == p)
  {
  }

  /** Take undoes Put: the transaction comes back once, and the map is what Put had made room in. */
  lemma TakeUndoesPut<T>(p: Pending<T>, capacity: nat, dead: set<T>, later: set<T>, state: Bytes, slot: Slot<T>)
    requires Put(p, capacity, dead, true, state, slot).1 && slot.transaction !in later
    ensures var r := Put(p, capacity, dead, true, state, slot).0;
            var (after, taken) := Take(r, later, state, slot.secret);
            && taken == Some(slot.transaction)
            && after == Room(p, capacity, dead)
            && Take(after, later, state, slot.secret).1 == None
  {
  }
}

/** auth/oidc/store.go. The methods hold the mutex for their whole critical section, so each is one step; the races that
    remain on the `used` flags are the subject of LoginProtocol. */
module LockedStore {
  import opened Octets
  import opened LoginClock
  import opened Login
  import opened PendingLogins

  const MAX_PENDING := 10000

  datatype Entry = Entry(transaction: Transaction, bindingHash: Bytes)

  /** SHA-256, idealised: no two inputs share a digest. */
  ghost predicate Injective(hash: Bytes -> Bytes) {
    forall a, b :: hash(a) == hash(b) ==> a == b
  }

  /** An entry holds the slot's transaction under its own state, and the hash of its secret. */
  ghost predicate Represents(s: Bytes, entry: Entry, slot: Slot<Transaction>, hash: Bytes -> Bytes) {
    entry == Entry(slot.transaction, hash(slot.secret)) && slot.transaction.state == s
  }

  ghost predicate Refines(entries: map<Bytes, Entry>, pending: Pending<Transaction>, hash: Bytes -> Bytes) {
    entries.Keys == pending.Keys && forall s :: s in pending ==> Represents(s, entries[s], pending[s], hash)
  }

  lemma RemoveRefines(entries: map<Bytes, Entry>, pending: Pending<Transaction>, hash: Bytes -> Bytes, s: Bytes)
    requires Refines(entries, pending, hash)
    ensures Refines(entries - {s}, pending - {s}, hash) && |pending - {s}| <= |pending|
  {
    Fewer((pending - {s}).Keys, pending.Keys);
  }

  lemma InsertRefines(entries: map<Bytes, Entry>, pending: Pending<Transaction>, hash: Bytes -> Bytes,
                      slot: Slot<Transaction>)
    requires Refines(entries, pending, hash) && slot.transaction.state !in pending
    ensures Refines(entries[slot.transaction.state := Entry(slot.transaction, hash(slot.secret))],
                    pending[slot.transaction.state := slot], hash)
    ensures |pending[slot.transaction.state := slot]| == |pending| + 1
  {
  }

  lemma SameSize(entries: map<Bytes, Entry>, pending: Pending<Transaction>, hash: Bytes -> Bytes)
    requires Refines(entries, pending, hash)
    ensures |entries| == |pending|
  {
    assert |entries| == |entries.Keys| && |pending| == |pending.Keys|;
  }

  predicate IsDead(t: Transaction, now: int)
    reads t
  {
    Expired(now, t.createdAt) || t.used
  }

  /** The transactions in p that are used, or expired at `now`. */
  ghost function Dead(p: Pending<Transaction>, now: int): (r: set<Transaction>)
    reads set s | s in p :: p[s].transaction
    ensures forall s :: s in p ==> (p[s].transaction in r <==> IsDead(p[s].transaction, now))
  {
    set s | s in p && IsDead(p[s].transaction, now) :: p[s].transaction
  }

  class TransactionStore {
    const capacity: nat
    const hash: Bytes -> Bytes
    var entries: map<Bytes, Entry>
    // The same entries with the browser secret itself in place of its hash.
    ghost var pending: Pending<Transaction>

    ghost predicate Valid()
      reads this
    {
      1 <= capacity <= MAX_PENDING && Injective(hash) && |pending| <= capacity && Refines(entries, pending, hash)
    }

    constructor (capacity: nat, hash: Bytes -> Bytes)
      requires 1 <= capacity <= MAX_PENDING && Injective(hash)
      ensures Valid() && pending == map[] && this.capacity == capacity && this.hash == hash
    {
      this.capacity, this.hash := capacity, hash;
      this.entries, this.pending := map[], map[];
    }

    method Remove(state: Bytes)
      requires Valid()
      modifies this
      ensures Valid() && pending == old(pending) - {state}
    {
      RemoveRefines(entries, pending, hash, state);
      entries, pending := entries - {state}, pending - {state};
    }

    /** pruneExpired: removes exactly the dead entries. */
    method PruneExpired(now: int)
      requires Valid()
      modifies this
      ensures Valid() && pending == old(Living(pending, Dead(pending, now)))
    {
      var todo := entries.Keys;
      ghost var (before, dead) := (pending, Dead(pending, now));
      PrunedEnds(before, dead);
      while todo != {}
        invariant Valid() && todo <= before.Keys && pending == Pruned(before, dead, todo)
        decreases todo
      {
        var state :| state in todo;
        PrunedStep(before, dead, todo, state);
        var t := entries[state].transaction;
        assert Represents(state, entries[state], pending[state], hash) && t == before[state].transaction;
        if IsDead(t, now) {
          Remove(state);
        }
        todo := todo - {state};
      }
    }

    method MakeRoom(now: int)
      requires Valid()
      modifies this
      ensures Valid() && pending == old(Room(pending, capacity, Dead(pending, now)))
    {
      SameSize(entries, pending, hash);
      if |entries| >= capacity {
        PruneExpired(now);
      }
    }

    /** The critical section of Put. `pruneNow` and `now` are its two readings of the clock. */
    method PutLocked(t: Transaction, secret: Bytes, pruneNow: int, now: int) returns (ok: bool)
      requires Valid()
      modifies this
      ensures Valid()
      ensures (pending, ok) == Put(old(pending), capacity, old(Dead(pending, pruneNow)), Fresh(now, t.createdAt), t.state,
                                   Slot(t, secret))
    {
      MakeRoom(pruneNow);
      SameSize(entries, pending, hash);
      if Expired(now, t.createdAt) || FromFuture(now, t.createdAt) {
        return false;
      }
      if t.state in entries || |entries| >= capacity {
        return false;
      }
      InsertRefines(entries, pending, hash, Slot(t, secret));
      entries := entries[t.state := Entry(t, hash(secret))];
      pending := pending[t.state := Slot(t, secret)];
      ok := true;
    }

    /** The critical section of Take: comparing hashes is comparing secrets. */
    method TakeLocked(state: Bytes, secret: Bytes, now: int) returns (t: Transaction?)
      requires Valid()
      modifies this
      ensures Valid()
      ensures (pending, if t == null then None else Some(t)) ==
              Take(old(pending), old(Dead(pending, now)), state, secret)
    {
      if state !in entries {
        return null;
      }
      var entry := entries[state];
      assert Represents(state, entry, pending[state], hash);
      if IsDead(entry.transaction, now) {
        Remove(state);
        return null;
      }
      if hash(secret) != entry.bindingHash {
        return null;
      }
      Remove(state);
      t := entry.transaction;
    }
  }
}

/** The exported Put and Take: the tests made before the mutex, on binding strings. */
module Store {
  import opened Octets
  import opened Base64Url
  import opened LoginClock
  import opened Login
  import opened PendingLogins
  import opened LockedStore

  /** What Put tests before taking the mutex. */
  ghost predicate Admissible(t: Transaction?, binding: Bytes)
    reads if t == null then {} else {t}
  {
    t != null && t.owner != null && |t.state| == 43 && !t.used && DecodeBinding(binding).Some?
  }

  method PutTransaction(store: TransactionStore, t: Transaction?, binding: Bytes, pruneNow: int, now: int) returns (ok: bool)
    requires store.Valid()
    modifies store
    ensures store.Valid()
    ensures Admissible(t, binding) ==>
              (store.pending, ok) ==
              Put(old(store.pending), store.capacity, old(Dead(store.pending, pruneNow)), Fresh(now, t.createdAt), t.state,
                  Slot(t, DecodeBinding(binding).value))
    ensures !Admissible(t, binding) ==> !ok && store.pending == old(store.pending)
    ensures ok ==>
              && t != null && t.owner != null && !t.used && |t.state| == 43
              && now - 300_000_000_000 <= t.createdAt <= now + 60_000_000_000
              && t.state in store.pending && store.pending[t.state].transaction == t
              && Encode(store.pending[t.state].secret) == binding && |store.pending[t.state].secret| == 32
  {
    var decoded := DecodeBinding(binding);
    if t == null || t.owner == null || |t.state| != 43 || t.used || decoded.None? {
      return false;
    }
    BindingInverse(binding, decoded.value);
    ok := store.PutLocked(t, decoded.value, pruneNow, now);
  }

  method TakeTransaction(store: TransactionStore, state: Bytes, binding: Bytes, now: int) returns (t: Transaction?)
    requires store.Valid()
    modifies store
    ensures store.Valid()
    ensures |state| == 43 && DecodeBinding(binding).Some? ==>
              (store.pending, if t == null then None else Some(t)) ==
              Take(old(store.pending), old(Dead(store.pending, now)), state, DecodeBinding(binding).value)
    ensures !(|state| == 43 && DecodeBinding(binding).Some?) ==> t == null && store.pending == old(store.pending)
    ensures t != null <==>
              && |state| == 43 && state in old(store.pending)
              && var Slot(stored, secret) := old(store.pending)[state];
                 |secret| == 32 && Encode(secret) == binding && !stored.used && now - stored.createdAt <= 300_000_000_000
    ensures t != null ==> t == old(store.pending)[state].transaction && store.pending == old(store.pending) - {state}
  {
    if state in old(store.pending) {
      BindingInverse(binding, store.pending[state].secret);
    }
    var decoded := DecodeBinding(binding);
    if |state| != 43 || decoded.None? {
      return null;
    }
    t := store.TakeLocked(state, decoded.value, now);
  }

  /** A stored transaction comes back for the very binding string it was put under, and for no other string. */
  lemma OnlyItsBinding(p: Pending<Transaction>, dead: set<Transaction>, state: Bytes, t: Transaction, put: Bytes, shown: Bytes)
    requires DecodeBinding(put).Some? && DecodeBinding(shown).Some?
    requires state in p && p[state] == Slot(t, DecodeBinding(put).value) && t !in dead
    ensures Take(p, dead, state, DecodeBinding(shown).value).1 == (if shown == put then Some(t) else None)
  {
    if DecodeBinding(shown) == DecodeBinding(put) {
      BindingInjective(shown, put);
    }
  }
}
