/** The definite-length subset of BER that an LDAPMessage may use: identifier and length octets as in section 8.1 of
    ITU-T X.690, indefinite lengths excluded as in section 5.1 of RFC 4511. This is the declarative side: trees, their
    encodings, and the sizes the validator bounds. Nothing here parses. */
module BerGrammar {
  import opened Octets

  const MAX_NODES := 4096
  const MAX_DEPTH := 32
  const MAX_FRAME := 0x10_0000
  // The largest value the guarded shift loop can produce: it stops once the accumulator exceeds MAX_FRAME / 256.
  const MAX_LENGTH := MAX_FRAME + 255
  const SEQUENCE_TAG: byte := 0x30

  /** The octets in front of an element's contents, exactly as transmitted. Non-minimal lengths are legal, so the
      length octets are part of the tree. */
  datatype Header = Header(tag: byte, high: Bytes, length: Bytes)

  datatype Element =
    | Primitive(header: Header, content: Bytes)
    | Constructed(header: Header, children: seq<Element>)

  // tag & 0x1f == 0x1f
  predicate HasHighTag(tag: byte) {
    tag % 32 == 31
  }

  // tag & 0x20 != 0
  predicate IsConstructed(tag: byte) {
    tag / 32 % 2 == 1
  }

  // octet & 0x80 != 0
  predicate TopBit(octet: byte) {
    octet >= 128
  }

  /** Subsequent identifier octets: one to five, all but the last with the top bit set. */
  predicate ValidHigh(tag: byte, high: Bytes) {
    if HasHighTag(tag) then
      && 1 <= |high| <= 5
      && !TopBit(high[|high| - 1])
      && (forall i :: 0 <= i < |high| - 1 ==> TopBit(high[i]))
    else
      high == []
  }

  /** octets spell the length n in the short form or in the long form with one to four octets. */
  predicate SpellsLength(octets: Bytes, n: nat) {
    && |octets| >= 1
    && if TopBit(octets[0]) then
         1 <= octets[0] - 128 <= 4 && |octets| == 1 + (octets[0] - 128) && n == BigEndian(octets[1..])
       else
         |octets| == 1 && n == octets[0]
  }

  predicate ValidHeader(h: Header, n: nat) {
    ValidHigh(h.tag, h.high) && SpellsLength(h.length, n)
  }

  function HeaderBytes(h: Header): (s: Bytes)
  {
    [h.tag] + h.high + h.length
  }

  function Encode(e: Element): (s: Bytes)
    decreases e, 1
  {
    HeaderBytes(e.header) +
    match e
    case Primitive(_, content) => content
    case Constructed(_, children) => EncodeAll(children)
  }

  function EncodeAll(es: seq<Element>): (s: Bytes)
    decreases es, 0
  {
    if es == [] then [] else Encode(es[0]) + EncodeAll(es[1..])
  }

  predicate WellFormed(e: Element)
    decreases e, 1
  {
    match e
    case Primitive(h, content) => !IsConstructed(h.tag) && ValidHeader(h, |content|)
    case Constructed(h, children) =>
      IsConstructed(h.tag) && ValidHeader(h, |EncodeAll(children)|) && AllWellFormed(children)
  }

  predicate AllWellFormed(es: seq<Element>)
    decreases es, 0
  {
    es == [] || (WellFormed(es[0]) && AllWellFormed(es[1..]))
  }

  /** Number of elements in the tree. */
  function Nodes(e: Element): (n: nat)
    decreases e, 1
  {
    1 + if e.Primitive? then 0 else NodesAll(e.children)
  }

  function NodesAll(es: seq<Element>): nat
    decreases es, 0
  {
    if es == [] then 0 else Nodes(es[0]) + NodesAll(es[1..])
  }

  /** Number of levels below the root; a leaf has none. */
  function Height(e: Element): (n: nat)
    decreases e, 1
  {
    if e.Primitive? then 0 else HeightAll(e.children)
  }

  /** Levels occupied by a list of siblings. */
  function HeightAll(es: seq<Element>): nat
    decreases es, 0
  {
    if es == [] then 0 else Max(1 + Height(es[0]), HeightAll(es[1..]))
  }

  /** The longest contents anywhere in the tree. */
  function Widest(e: Element): (n: nat)
    decreases e, 1
  {
    if e.Primitive? then |e.content| else Max(|EncodeAll(e.children)|, WidestAll(e.children))
  }

  function WidestAll(es: seq<Element>): nat
    decreases es, 0
  {
    if es == [] then 0 else Max(Widest(es[0]), WidestAll(es[1..]))
  }

  /** e fits when `nodes` elements were counted before it and its root sits at `depth`. */
  predicate InBudget(e: Element, nodes: nat, depth: nat) {
    nodes + Nodes(e) <= MAX_NODES && depth + Height(e) <= MAX_DEPTH && Widest(e) <= MAX_LENGTH
  }

  /** One LDAP message: a SEQUENCE of at most 1 MiB, 4096 elements and 32 levels below the root. */
  predicate IsMessage(e: Element) {
    && WellFormed(e)
    && e.header.tag == SEQUENCE_TAG
    && Nodes(e) <= MAX_NODES
    && Height(e) <= MAX_DEPTH
    && |Encode(e)| <= MAX_FRAME
  }

  predicate AllMessages(es: seq<Element>) {
    forall i :: 0 <= i < |es| ==> IsMessage(es[i])
  }

  // ---------------------------------------------------------------- unambiguity

  /** The high-tag octets delimit themselves. */
  lemma {:induction false} HighUnique(tag: byte, h1: Bytes, h2: Bytes, r1: Bytes, r2: Bytes)
    requires ValidHigh(tag, h1) && ValidHigh(tag, h2)
    requires h1 + r1 == h2 + r2
    ensures h1 == h2 && r1 == r2
  {
    var s := h1 + r1;
    assert forall i :: 0 <= i < |h1| ==> s[i] == h1[i];
    assert forall i :: 0 <= i < |h2| ==> s[i] == h2[i];
    assert |h1| == |h2|;
    assert h1 == (h1 + r1)[..|h1|] && r1 == (h1 + r1)[|h1|..];
    assert h2 == (h2 + r2)[..|h1|] && r2 == (h2 + r2)[|h1|..];
  }

  /** The length octets delimit themselves and spell one length. */
  lemma {:induction false} LengthUnique(o1: Bytes, o2: Bytes, n1: nat, n2: nat, r1: Bytes, r2: Bytes)
    requires SpellsLength(o1, n1) && SpellsLength(o2, n2)
    requires o1 + r1 == o2 + r2
    ensures o1 == o2 && n1 == n2 && r1 == r2
  {
    assert (o1 + r1)[0] == (o2 + r2)[0];
    assert o1 == (o1 + r1)[..|o1|] && r1 == (o1 + r1)[|o1|..];
    assert o2 == (o2 + r2)[..|o1|] && r2 == (o2 + r2)[|o1|..];
  }

  lemma {:induction false} HeaderUnique(h1: Header, h2: Header, n1: nat, n2: nat, r1: Bytes, r2: Bytes)
    requires ValidHeader(h1, n1) && ValidHeader(h2, n2)
    requires HeaderBytes(h1) + r1 == HeaderBytes(h2) + r2
    ensures h1 == h2 && n1 == n2 && r1 == r2
  {
    var s := HeaderBytes(h1) + r1;
    assert s[0] == h1.tag && s[0] == h2.tag;
    assert s[1..] == h1.high + (h1.length + r1);
    assert s[1..] == h2.high + (h2.length + r2);
    HighUnique(h1.tag, h1.high, h2.high, h1.length + r1, h2.length + r2);
    LengthUnique(h1.length, h2.length, n1, n2, r1, r2);
  }

  function Contents(e: Element): (s: Bytes)
    ensures Encode(e) == HeaderBytes(e.header) + s
  {
    if e.Primitive? then e.content else EncodeAll(e.children)
  }

  /** Two elements at the front of the same bytes carry the same header and contents. */
  lemma {:induction false} SameHeader(e1: Element, e2: Element, r1: Bytes, r2: Bytes)
    requires WellFormed(e1) && WellFormed(e2)
    requires Encode(e1) + r1 == Encode(e2) + r2
    ensures e1.header == e2.header && Contents(e1) == Contents(e2) && r1 == r2
  {
    var (c1, c2) := (Contents(e1), Contents(e2));
    assert Encode(e1) + r1 == HeaderBytes(e1.header) + (c1 + r1);
    assert Encode(e2) + r2 == HeaderBytes(e2.header) + (c2 + r2);
    HeaderUnique(e1.header, e2.header, |c1|, |c2|, c1 + r1, c2 + r2);
    assert c1 == (c1 + r1)[..|c1|] && r1 == (c1 + r1)[|c1|..];
    assert c2 == (c2 + r2)[..|c1|] && r2 == (c2 + r2)[|c1|..];
  }

  /** The encoding is a prefix code: what follows an element never changes how it is read. */
  lemma {:induction false} EncodeUnique(e1: Element, e2: Element, r1: Bytes, r2: Bytes)
    requires WellFormed(e1) && WellFormed(e2)
    requires Encode(e1) + r1 == Encode(e2) + r2
    ensures e1 == e2 && r1 == r2
    decreases e1, 1
  {
    SameHeader(e1, e2, r1, r2);
    if e1.Constructed? {
      assert EncodeAll(e1.children) + [] == EncodeAll(e1.children);
      EncodeAllUnique(e1.children, e2.children);
    }
  }

  lemma {:induction false} EncodeAllUnique(es1: seq<Element>, es2: seq<Element>)
    requires AllWellFormed(es1) && AllWellFormed(es2)
    requires EncodeAll(es1) == EncodeAll(es2)
    ensures es1 == es2
    decreases es1, 0
  {
    if es1 != [] && es2 != [] {
      EncodeUnique(es1[0], es2[0], EncodeAll(es1[1..]), EncodeAll(es2[1..]));
      EncodeAllUnique(es1[1..], es2[1..]);
      assert es1 == [es1[0]] + es1[1..];
      assert es2 == [es2[0]] + es2[1..];
    }
  }

  lemma {:induction false} FrontHead(front: seq<Element>, es: seq<Element>, rest: Bytes)
    requires AllWellFormed(front) && AllWellFormed(es) && front != []
    requires EncodeAll(es) == EncodeAll(front) + rest
    ensures es != [] && es[0] == front[0] && EncodeAll(es[1..]) == EncodeAll(front[1..]) + rest
  {
    Assoc(Encode(front[0]), EncodeAll(front[1..]), rest);
    EncodeUnique(es[0], front[0], EncodeAll(es[1..]), EncodeAll(front[1..]) + rest);
  }

  /** An encoding that starts with the encodings of `front` continues, if at all, with the next element's. */
  lemma {:induction false} EncodeAllFront(front: seq<Element>, es: seq<Element>, rest: Bytes)
    requires AllWellFormed(front) && AllWellFormed(es)
    requires EncodeAll(es) == EncodeAll(front) + rest
    ensures |front| <= |es| && es[..|front|] == front
    ensures rest != [] ==> |front| < |es| && Encode(es[|front|]) <= rest
  {
    if front == [] {
      assert EncodeAll(front) + rest == rest;
    } else {
      FrontHead(front, es, rest);
      EncodeAllFront(front[1..], es[1..], rest);
      assert es[..|front|] == [es[0]] + es[1..][..|front| - 1] == front;
    }
  }

  // ---------------------------------------------------------------- lists of siblings

  lemma {:induction false} EncodeAllConcat(a: seq<Element>, b: seq<Element>)
    ensures EncodeAll(a + b) == EncodeAll(a) + EncodeAll(b)
  {
    if a == [] {
      assert a + b == b;
    } else {
      assert (a + b)[1..] == a[1..] + b;
      EncodeAllConcat(a[1..], b);
    }
  }

  lemma {:induction false} MeasuresConcat(a: seq<Element>, b: seq<Element>)
    ensures NodesAll(a + b) == NodesAll(a) + NodesAll(b)
    ensures HeightAll(a + b) == Max(HeightAll(a), HeightAll(b))
    ensures WidestAll(a + b) == Max(WidestAll(a), WidestAll(b))
    ensures AllWellFormed(a + b) == (AllWellFormed(a) && AllWellFormed(b))
  {
    if a == [] {
      assert a + b == b;
    } else {
      assert (a + b)[1..] == a[1..] + b;
      MeasuresConcat(a[1..], b);
    }
  }

  lemma {:induction false} EncodeSingle(e: Element)
    ensures EncodeAll([e]) == Encode(e)
    ensures NodesAll([e]) == Nodes(e) && HeightAll([e]) == 1 + Height(e) && WidestAll([e]) == Widest(e)
    ensures AllWellFormed([e]) == WellFormed(e)
  {
  }

  /** No contents are longer than the whole encoding, so a frame's size alone bounds every length inside it. */
  lemma {:induction false} WidestBound(e: Element)
    ensures Widest(e) <= |Encode(e)|
    decreases e, 1
  {
    if e.Constructed? {
      WidestAllBound(e.children);
    }
  }

  lemma {:induction false} WidestAllBound(es: seq<Element>)
    ensures WidestAll(es) <= |EncodeAll(es)|
    decreases es, 0
  {
    if es != [] {
      WidestBound(es[0]);
      WidestAllBound(es[1..]);
    }
  }

  /** A message is named by its bytes: no two trees share an encoding. */
  lemma {:induction false} MessageUnique(e1: Element, e2: Element)
    requires IsMessage(e1) && IsMessage(e2)
    requires Encode(e1) == Encode(e2)
    ensures e1 == e2
  {
    EncodeUnique(e1, e2, [], []);
  }
}
