/** The recursive validator of directory/ldap/framing.go, proved equal to the grammar. */
module BerValidator {
  import opened Octets
  import opened BerGrammar

  /** The counter the validator shares by pointer across its recursive calls. One call, one increment, so `nodes` is
      also the number of calls made. `deepest` remembers the largest depth any call was given. */
  class Work {
    var nodes: nat
    ghost var deepest: nat

    constructor ()
      ensures nodes == 0 && deepest == 0
    {
      nodes, deepest := 0, 0;
    }
  }

  /** The guarded shift loop. It succeeds exactly on the numbers up to MAX_LENGTH, however many octets spell them, and
      no intermediate value exceeds that bound. */
  method AccumulateLength(octets: Bytes) returns (length: nat, err: bool)
    ensures !err <==> BigEndian(octets) <= MAX_LENGTH
    ensures !err ==> length == BigEndian(octets)
    ensures length <= MAX_LENGTH
  {
    length, err := 0, false;
    for i := 0 to |octets|
      invariant length == BigEndian(octets[..i]) <= MAX_LENGTH
    {
      assert octets[..i + 1][..i] == octets[..i];
      BigEndianPrefix(octets, i + 1);
      if length > MAX_FRAME / 256 {
        err := true;
        return;
      }
      length := 256 * length + octets[i];
    }
    assert octets[..|octets|] == octets;
  }

  /** Five continuing octets, or continuing octets up to the end, hold no complete high tag number. */
  lemma {:induction false} NoHighTag(data: Bytes, index: nat)
    requires 1 <= index <= |data| && HasHighTag(data[0])
    requires forall i :: 1 <= i < index ==> TopBit(data[i])
    requires index == 6 || index == |data|
    ensures forall high :: ValidHigh(data[0], high) ==> !(high <= data[1..])
  {
  }

  /** Steps over the identifier octets. */
  method SkipIdentifier(data: Bytes) returns (index: nat, err: bool)
    requires data != []
    ensures !err ==> 1 <= index <= |data| && ValidHigh(data[0], data[1..index])
    ensures err ==> forall high :: ValidHigh(data[0], high) ==> !(high <= data[1..])
  {
    index, err := 1, false;
    if HasHighTag(data[0]) {
      var count := 0;
      while true
        invariant 0 <= count <= 5 && index == 1 + count <= |data|
        invariant forall i :: 1 <= i < index ==> TopBit(data[i])
        decreases 5 - count
      {
        if count >= 5 || index >= |data| {
          err := true;
          NoHighTag(data, index);
          return;
        }
        var value := data[index];
        index := index + 1;
        if !TopBit(value) {
          return;
        }
        count := count + 1;
      }
    }
  }

  /** Reads the length octets at `start`. */
  method ReadLength(data: Bytes, start: nat) returns (index: nat, length: nat, err: bool)
    requires start <= |data|
    ensures !err ==> start < index <= |data| && SpellsLength(data[start..index], length) && length <= MAX_LENGTH
    ensures err ==> forall o, n: nat :: SpellsLength(o, n) && o <= data[start..] ==> n > MAX_LENGTH
  {
    index, length, err := start, 0, false;
    if index >= |data| {
      err := true;
      return;
    }
    length := data[index];
    index := index + 1;
    if TopBit(data[start]) {
      var octets := length - 128;
      if octets < 1 || octets > 4 || index + octets > |data| {
        err := true;
        return;
      }
      var spelled := data[index..index + octets];
      length, err := AccumulateLength(spelled);
      if err {
        forall o, n: nat | SpellsLength(o, n) && o <= data[start..]
          ensures n > MAX_LENGTH
        {
          assert o[0] == data[start];
          assert o == data[start..start + |o|];
          assert o[1..] == spelled;
        }
        return;
      }
      index := index + octets;
      assert data[start..index][1..] == spelled;
    }
  }

  /** A header at the front of data whose contents are all there. */
  ghost predicate HeaderFits(h: Header, n: nat, data: Bytes) {
    ValidHeader(h, n) && n <= MAX_LENGTH && |HeaderBytes(h)| + n <= |data| && HeaderBytes(h) <= data
  }

  ghost predicate NoHeader(data: Bytes) {
    forall h, n: nat :: !HeaderFits(h, n, data)
  }

  lemma {:induction false} HeaderParts(h: Header, data: Bytes)
    requires HeaderBytes(h) <= data
    ensures data != [] && data[0] == h.tag && h.high <= data[1..] && h.length <= data[1 + |h.high|..]
  {
  }

  lemma {:induction false} NoIdentifierNoHeader(data: Bytes)
    requires data != []
    requires forall high :: ValidHigh(data[0], high) ==> !(high <= data[1..])
    ensures NoHeader(data)
  {
    forall h, n: nat
      ensures !HeaderFits(h, n, data)
    {
      if HeaderBytes(h) <= data {
        HeaderParts(h, data);
      }
    }
  }

  lemma {:induction false} LengthAfterIdentifier(data: Bytes, start: nat, h: Header)
    requires 1 <= start <= |data| && ValidHigh(data[0], data[1..start])
    requires ValidHigh(h.tag, h.high) && HeaderBytes(h) <= data
    ensures h.length <= data[start..]
  {
    HeaderParts(h, data);
    var k := 1 + |h.high|;
    Slices(data, 1, k, |data|);
    Slices(data, 1, start, |data|);
    assert h.high == data[1..k];
    assert data[k..|data|] == data[k..] && data[start..|data|] == data[start..];
    HighUnique(data[0], h.high, data[1..start], data[k..], data[start..]);
  }

  lemma {:induction false} NoLengthNoHeader(data: Bytes, start: nat)
    requires 1 <= start <= |data| && ValidHigh(data[0], data[1..start])
    requires forall o, n: nat :: SpellsLength(o, n) && o <= data[start..] ==> n > MAX_LENGTH
    ensures NoHeader(data)
  {
    forall h, n: nat
      ensures !HeaderFits(h, n, data)
    {
      if ValidHeader(h, n) && HeaderBytes(h) <= data {
        LengthAfterIdentifier(data, start, h);
      }
    }
  }

  lemma {:induction false} NoContentsNoHeader(data: Bytes, h: Header, n: nat)
    requires ValidHeader(h, n) && HeaderBytes(h) <= data && |HeaderBytes(h)| + n > |data|
    ensures NoHeader(data)
  {
    forall h', n': nat
      ensures !HeaderFits(h', n', data)
    {
      if HeaderFits(h', n', data) {
        var (k, k') := (|HeaderBytes(h)|, |HeaderBytes(h')|);
        Rejoin(HeaderBytes(h), data);
        Rejoin(HeaderBytes(h'), data);
        HeaderUnique(h, h', n, n', data[k..], data[k'..]);
      }
    }
  }

  lemma HeaderInPlace(data: Bytes, h: Header, start: nat, index: nat)
    requires 1 <= start <= index <= |data| && h == Header(data[0], data[1..start], data[start..index])
    ensures HeaderBytes(h) == data[..index]
  {
    assert data[..start] == [data[0]] + data[1..start];
    assert data[..index] == data[..start] + data[start..index];
  }

  /** Identifier octets, length octets and the check that the contents are present. */
  method ReadHeader(data: Bytes) returns (index: nat, length: nat, err: bool, ghost h: Header)
    requires data != []
    ensures !err ==> HeaderFits(h, length, data) && index == |HeaderBytes(h)| && h.tag == data[0]
    ensures err ==> NoHeader(data)
  {
    h := Header(data[0], [], []);
    length := 0;
    index, err := SkipIdentifier(data);
    if err {
      NoIdentifierNoHeader(data);
      return;
    }
    var start := index;
    index, length, err := ReadLength(data, start);
    if err {
      NoLengthNoHeader(data, start);
      return;
    }
    h := Header(data[0], data[1..start], data[start..index]);
    HeaderInPlace(data, h, start, index);
    if length > |data| - index {
      err := true;
      NoContentsNoHeader(data, h, length);
    }
  }

  /** Every element at the front of data starts with the header that was read there. */
  lemma {:induction false} HeaderOfElement(data: Bytes, h: Header, n: nat, e: Element)
    requires HeaderFits(h, n, data)
    requires WellFormed(e) && Encode(e) <= data
    ensures e.header == h && Contents(e) == data[|HeaderBytes(h)|..|HeaderBytes(h)| + n]
  {
    ElementHasHeader(data, e);
    var (k, k') := (|HeaderBytes(h)|, |HeaderBytes(e.header)|);
    Rejoin(HeaderBytes(h), data);
    Rejoin(HeaderBytes(e.header), data);
    HeaderUnique(h, e.header, n, |Contents(e)|, data[k..], data[k'..]);
    ContentsBehindHeader(e);
    assert Encode(e) == data[..k + n];
  }

  lemma {:induction false} ContentsBehindHeader(e: Element)
    ensures |Encode(e)| == |HeaderBytes(e.header)| + |Contents(e)|
    ensures Contents(e) == Encode(e)[|HeaderBytes(e.header)|..]
  {
  }

  /** No element that starts data stays in budget. */
  ghost predicate Rejected(data: Bytes, nodes: nat, depth: nat) {
    forall e :: WellFormed(e) && Encode(e) <= data ==> !InBudget(e, nodes, depth)
  }

  lemma {:induction false} ContentsBound(e: Element)
    ensures |Contents(e)| <= Widest(e) && 1 <= Nodes(e)
  {
  }

  lemma {:induction false} ElementHasHeader(data: Bytes, e: Element)
    requires WellFormed(e) && Encode(e) <= data
    ensures ValidHeader(e.header, |Contents(e)|) && HeaderBytes(e.header) <= data
    ensures |HeaderBytes(e.header)| + |Contents(e)| <= |data|
  {
    assert HeaderBytes(e.header) == Encode(e)[..|HeaderBytes(e.header)|];
  }

  lemma {:induction false} NoHeaderRejected(data: Bytes, nodes: nat, depth: nat)
    requires NoHeader(data)
    ensures Rejected(data, nodes, depth)
  {
    forall e | WellFormed(e) && Encode(e) <= data
      ensures !InBudget(e, nodes, depth)
    {
      ElementHasHeader(data, e);
      ContentsBound(e);
      assert !HeaderFits(e.header, |Contents(e)|, data);
    }
  }

  lemma {:induction false} ShortOrSpentRejected(data: Bytes, nodes: nat, depth: nat)
    requires depth > MAX_DEPTH || nodes >= MAX_NODES || |data| < 2
    ensures Rejected(data, nodes, depth)
  {
  }

  lemma {:induction false} ConstructedContents(e: Element)
    requires WellFormed(e) && IsConstructed(e.header.tag)
    ensures e.Constructed? && AllWellFormed(e.children) && EncodeAll(e.children) == Contents(e)
  {
  }

  /** A parent costs at least its first children and the next one. */
  lemma {:induction false} ParentCost(e: Element, k: nat, nodes: nat, depth: nat)
    requires WellFormed(e) && e.Constructed? && k < |e.children|
    ensures WellFormed(e.children[k])
    ensures InBudget(e, nodes, depth) ==> InBudget(e.children[k], nodes + 1 + NodesAll(e.children[..k]), depth + 1)
  {
    var (front, later) := (e.children[..k], e.children[k..]);
    assert e.children == front + later;
    MeasuresConcat(front, later);
  }

  lemma {:induction false} RejectedSibling(e: Element, kids: seq<Element>, rest: Bytes, nodes: nat, depth: nat)
    requires WellFormed(e) && IsConstructed(e.header.tag)
    requires AllWellFormed(kids) && Contents(e) == EncodeAll(kids) + rest && rest != []
    requires Rejected(rest, nodes + 1 + NodesAll(kids), depth + 1)
    ensures !InBudget(e, nodes, depth)
  {
    ConstructedContents(e);
    EncodeAllFront(kids, e.children, rest);
    ParentCost(e, |kids|, nodes, depth);
  }

  /** A rejected child rules out every parent. */
  lemma {:induction false} RejectedChild(data: Bytes, h: Header, n: nat, kids: seq<Element>, index: nat, nodes: nat, depth: nat)
    requires HeaderFits(h, n, data) && IsConstructed(h.tag)
    requires |HeaderBytes(h)| <= index < |HeaderBytes(h)| + n
    requires AllWellFormed(kids) && EncodeAll(kids) == data[|HeaderBytes(h)|..index]
    requires Rejected(data[index..|HeaderBytes(h)| + n], nodes + 1 + NodesAll(kids), depth + 1)
    ensures Rejected(data, nodes, depth)
  {
    forall e | WellFormed(e) && Encode(e) <= data
      ensures !InBudget(e, nodes, depth)
    {
      RejectedParent(data, h, n, kids, index, nodes, depth, e);
    }
  }

  lemma {:induction false} ContentsSplit(data: Bytes, h: Header, n: nat, index: nat, e: Element)
    requires HeaderFits(h, n, data) && |HeaderBytes(h)| <= index <= |HeaderBytes(h)| + n
    requires WellFormed(e) && Encode(e) <= data
    ensures e.header == h && Contents(e) == data[|HeaderBytes(h)|..index] + data[index..|HeaderBytes(h)| + n]
  {
    HeaderOfElement(data, h, n, e);
    Slices(data, |HeaderBytes(h)|, index, |HeaderBytes(h)| + n);
  }

  lemma {:induction false} RejectedParent(data: Bytes, h: Header, n: nat, kids: seq<Element>, index: nat, nodes: nat, depth: nat,
                                          e: Element)
    requires HeaderFits(h, n, data) && IsConstructed(h.tag)
    requires |HeaderBytes(h)| <= index < |HeaderBytes(h)| + n
    requires AllWellFormed(kids) && EncodeAll(kids) == data[|HeaderBytes(h)|..index]
    requires Rejected(data[index..|HeaderBytes(h)| + n], nodes + 1 + NodesAll(kids), depth + 1)
    requires WellFormed(e) && Encode(e) <= data
    ensures !InBudget(e, nodes, depth)
  {
    ContentsSplit(data, h, n, index, e);
    RejectedSibling(e, kids, data[index..|HeaderBytes(h)| + n], nodes, depth);
  }

  /** The children accepted so far: they spell data[start..index] and leave the parent in budget. */
  ghost predicate Siblings(kids: seq<Element>, data: Bytes, start: nat, index: nat, nodes: nat, depth: nat) {
    && start <= index <= |data|
    && AllWellFormed(kids) && EncodeAll(kids) == data[start..index]
    && nodes + 1 + NodesAll(kids) <= MAX_NODES
    && depth + HeightAll(kids) <= MAX_DEPTH
    && WidestAll(kids) <= MAX_LENGTH
  }

  lemma {:induction false} AddSibling(kids: seq<Element>, kid: Element, data: Bytes, start: nat, index: nat, end: nat, consumed: nat,
                   nodes: nat, depth: nat)
    requires Siblings(kids, data, start, index, nodes, depth)
    requires index + consumed <= end <= |data|
    requires WellFormed(kid) && Encode(kid) == data[index..end][..consumed]
    requires InBudget(kid, nodes + 1 + NodesAll(kids), depth + 1)
    ensures Siblings(kids + [kid], data, start, index + consumed, nodes, depth)
    ensures NodesAll(kids + [kid]) == NodesAll(kids) + Nodes(kid)
  {
    EncodeSingle(kid);
    MeasuresConcat(kids, [kid]);
    assert EncodeAll(kids + [kid]) == data[start..index + consumed] by {
      EncodeAllConcat(kids, [kid]);
      FrontOfSlice(data, index, end, consumed);
      Slices(data, start, index, index + consumed);
    }
  }

  lemma {:induction false} EncodedAtLeastTwo(e: Element)
    requires WellFormed(e)
    ensures |Encode(e)| >= 2
  {
  }

  lemma {:induction false} ConstructedAccepted(data: Bytes, h: Header, n: nat, kids: seq<Element>, nodes: nat, depth: nat)
    requires HeaderFits(h, n, data) && IsConstructed(h.tag)
    requires Siblings(kids, data, |HeaderBytes(h)|, |HeaderBytes(h)| + n, nodes, depth)
    ensures Accepted(Constructed(h, kids), data, |HeaderBytes(h)| + n, nodes, depth)
    ensures Nodes(Constructed(h, kids)) == 1 + NodesAll(kids)
  {
  }

  lemma {:induction false} PrimitiveAccepted(data: Bytes, h: Header, n: nat, nodes: nat, depth: nat)
    requires HeaderFits(h, n, data) && !IsConstructed(h.tag) && nodes < MAX_NODES && depth <= MAX_DEPTH
    ensures var k := |HeaderBytes(h)|; Accepted(Primitive(h, data[k..k + n]), data, k + n, nodes, depth)
  {
  }

  /** e is the in-budget element that occupies data[..end]. */
  ghost predicate Accepted(e: Element, data: Bytes, end: nat, nodes: nat, depth: nat) {
    WellFormed(e) && 2 <= end <= |data| && Encode(e) == data[..end] && InBudget(e, nodes, depth)
  }

  /** The validator accepts exactly the elements of the grammar that stay in budget, and says where the element ends.
      Each call gets a strictly shorter slice; the shared counter never passes MAX_NODES + 1. */
  method ValidateElement(data: Bytes, depth: nat, work: Work) returns (end: nat, err: bool, ghost e: Element)
    modifies work
    ensures !err ==> Accepted(e, data, end, old(work.nodes), depth) && work.nodes == old(work.nodes) + Nodes(e)
    ensures err ==> Rejected(data, old(work.nodes), depth)
    ensures old(work.nodes) < work.nodes <= Max(old(work.nodes) + 1, MAX_NODES + 1)
    ensures work.deepest <= Max(old(work.deepest), Max(depth, MAX_DEPTH + 1))
    decreases |data|, 1
  {
    e := Primitive(Header(0, [], []), []);
    work.nodes := work.nodes + 1;
    work.deepest := Max(work.deepest, depth);
    if depth > MAX_DEPTH || work.nodes > MAX_NODES || |data| < 2 {
      ShortOrSpentRejected(data, old(work.nodes), depth);
      return 0, true, e;
    }
    var index, length;
    ghost var h;
    index, length, err, h := ReadHeader(data);
    if err {
      NoHeaderRejected(data, old(work.nodes), depth);
      return 0, true, e;
    }
    end := index + length;
    if IsConstructed(data[0]) {
      ghost var kids;
      err, kids := ValidateChildren(data, index, end, depth, work, h);
      if err {
        return 0, true, e;
      }
      ConstructedAccepted(data, h, length, kids, old(work.nodes), depth);
      e := Constructed(h, kids);
    } else {
      PrimitiveAccepted(data, h, length, old(work.nodes), depth);
      e := Primitive(h, data[index..end]);
    }
  }

  /** The loop over the contents of a constructed element, entered with the parent already counted. */
  method ValidateChildren(data: Bytes, start: nat, end: nat, depth: nat, work: Work, ghost h: Header)
    returns (err: bool, ghost kids: seq<Element>)
    requires IsConstructed(h.tag) && |HeaderBytes(h)| == start <= end && HeaderFits(h, end - start, data)
    requires 1 <= work.nodes <= MAX_NODES && depth <= MAX_DEPTH
    modifies work
    ensures !err ==> Siblings(kids, data, start, end, old(work.nodes) - 1, depth)
    ensures !err ==> work.nodes == old(work.nodes) + NodesAll(kids)
    ensures err ==> Rejected(data, old(work.nodes) - 1, depth)
    ensures old(work.nodes) <= work.nodes <= MAX_NODES + 1
    ensures work.deepest <= Max(old(work.deepest), MAX_DEPTH + 1)
    decreases |data|, 0
  {
    var index := start;
    err, kids := false, [];
    while index < end
      invariant index <= end
      invariant Siblings(kids, data, start, index, old(work.nodes) - 1, depth)
      invariant work.nodes == old(work.nodes) + NodesAll(kids)
      invariant work.deepest <= Max(old(work.deepest), MAX_DEPTH + 1)
    {
      var consumed;
      ghost var kid;
      consumed, err, kid := ValidateElement(data[index..end], depth + 1, work);
      if err {
        RejectedChild(data, h, end - start, kids, index, old(work.nodes) - 1, depth);
        return;
      }
      AddSibling(kids, kid, data, start, index, end, consumed, old(work.nodes) - 1, depth);
      kids := kids + [kid];
      index := index + consumed;
    }
  }

  /** Sound and complete: a frame is accepted exactly when it is the encoding of an LDAP message, and by
      BerGrammar.MessageUnique of one message only. Whatever the input, the work is bounded. */
  method ValidateFrame(frame: Bytes) returns (err: bool, ghost message: Element, ghost calls: nat, ghost deepest: nat)
    ensures !err <==> exists e :: IsMessage(e) && Encode(e) == frame
    ensures !err ==> IsMessage(message) && Encode(message) == frame
    ensures calls <= MAX_NODES + 1 && deepest <= MAX_DEPTH + 1
  {
    calls, deepest := 0, 0;
    message := Primitive(Header(0, [], []), []);
    if |frame| < 2 || |frame| > MAX_FRAME || frame[0] != SEQUENCE_TAG {
      return true, message, calls, deepest;
    }
    var work := new Work();
    var end, failed;
    end, failed, message := ValidateElement(frame, 0, work);
    calls, deepest := work.nodes, work.deepest;
    err := failed || end != |frame|;
    forall e | IsMessage(e) && Encode(e) == frame
      ensures !err
    {
      WidestBound(e);
      assert InBudget(e, 0, 0) && Encode(e) <= frame;
      assert frame == Encode(message) + frame[end..];
      assert Encode(e) + [] == frame;
      EncodeUnique(e, message, [], frame[end..]);
    }
    if !err {
      assert frame[..end] == frame;
    }
  }
}
