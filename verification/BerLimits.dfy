/** What the grammar of BerGrammar says in the terms of the source and of its tests: bits of an octet, octets of a length,
    levels and elements of a tree, and frames that are refused. */
module BerLimits {
  import opened Octets
  import opened BerGrammar

  // ---------------------------------------------------------------- octets

  /** The three masks of the source. */
  lemma BitTests(octet: byte)
    ensures IsConstructed(octet) <==> (octet as bv8) & 0x20 != 0
    ensures HasHighTag(octet) <==> (octet as bv8) & 0x1f == 0x1f
    ensures TopBit(octet) <==> (octet as bv8) & 0x80 != 0
  {
  }

  /** The octets behind a tag: none unless its five low bits are set, and then one to five of which exactly the last has
      its top bit clear. */
  lemma ValidHighExactly(tag: byte, high: Bytes)
    ensures ValidHigh(tag, high) <==>
              if (tag as bv8) & 0x1f == 0x1f then
                1 <= |high| <= 5 && forall i :: 0 <= i < |high| ==> ((high[i] as bv8) & 0x80 == 0 <==> i == |high| - 1)
              else high == []
  {
    BitTests(tag);
    forall i | 0 <= i < |high|
      ensures TopBit(high[i]) <==> (high[i] as bv8) & 0x80 != 0
    {
      BitTests(high[i]);
    }
  }

  /** The long form: a count of octets and a numeral of that many. */
  ghost predicate LongForm(octets: Bytes, n: nat, k: nat) {
    1 <= k <= 4 && n < Pow256(k) && octets == [128 + k] + Digits(k, n)
  }

  lemma LongFormSpells(octets: Bytes, n: nat, k: nat)
    requires LongForm(octets, n, k)
    ensures SpellsLength(octets, n) && TopBit(octets[0])
  {
    DigitsRoundTrip(k, n);
    assert octets[1..] == Digits(k, n);
  }

  lemma SpelledLong(octets: Bytes, n: nat)
    requires SpellsLength(octets, n) && TopBit(octets[0])
    ensures LongForm(octets, n, octets[0] - 128)
  {
    NumberRoundTrip(octets[1..]);
  }

  /** A length is spelled by its one-octet numeral below 128, or by a count of one to four octets and a numeral. */
  lemma SpellsLengthExactly(octets: Bytes, n: nat)
    ensures SpellsLength(octets, n) <==> (n < 128 && octets == [n]) || exists k: nat :: LongForm(octets, n, k)
  {
    if SpellsLength(octets, n) && TopBit(octets[0]) {
      SpelledLong(octets, n);
    }
    if k: nat :| LongForm(octets, n, k) {
      LongFormSpells(octets, n, k);
    }
  }

  // ---------------------------------------------------------------- levels

  /** The path descends from e, each step into the child of that index. */
  predicate HasPath(e: Element, path: seq<nat>)
    decreases |path|
  {
    path == [] || (e.Constructed? && path[0] < |e.children| && HasPath(e.children[path[0]], path[1..]))
  }

  lemma {:induction false} TallestSibling(es: seq<Element>, n: nat)
    requires n > 0
    ensures HeightAll(es) >= n <==> exists i :: 0 <= i < |es| && 1 + Height(es[i]) >= n
    decreases |es|
  {
    if es != [] {
      TallestSibling(es[1..], n);
      assert forall i :: 0 <= i < |es[1..]| ==> es[1..][i] == es[i + 1];
      if 1 + Height(es[0]) < n && (exists i :: 0 <= i < |es| && 1 + Height(es[i]) >= n) {
        var i :| 0 <= i < |es| && 1 + Height(es[i]) >= n;
        assert es[1..][i - 1] == es[i];
      }
    }
  }

  lemma {:induction false} DeepPath(e: Element, n: nat) returns (path: seq<nat>)
    requires Height(e) >= n
    ensures |path| == n && HasPath(e, path)
    decreases n
  {
    path := [];
    if n > 0 {
      TallestSibling(e.children, n);
      var i :| 0 <= i < |e.children| && 1 + Height(e.children[i]) >= n;
      var rest := DeepPath(e.children[i], n - 1);
      path := [i] + rest;
      assert path[1..] == rest;
    }
  }

  lemma {:induction false} PathWithin(e: Element, path: seq<nat>)
    requires HasPath(e, path)
    ensures |path| <= Height(e)
    decreases |path|
  {
    if path != [] {
      PathWithin(e.children[path[0]], path[1..]);
      TallestSibling(e.children, |path|);
    }
  }

  /** A message, in plain numbers: no descent has 33 steps. */
  lemma MessageExactly(e: Element)
    ensures IsMessage(e) <==>
              && WellFormed(e) && e.header.tag == 0x30
              && |Encode(e)| <= 1_048_576 && Nodes(e) <= 4096
              && !exists path :: |path| == 33 && HasPath(e, path)
  {
    if Height(e) >= 33 {
      var path := DeepPath(e, 33);
    }
    forall path | HasPath(e, path)
      ensures |path| <= Height(e)
    {
      PathWithin(e, path);
    }
  }

  // ---------------------------------------------------------------- contents

  lemma {:induction false} EachWellFormed(es: seq<Element>, i: nat)
    requires AllWellFormed(es) && i < |es|
    ensures WellFormed(es[i])
    decreases |es|
  {
    if i > 0 {
      EachWellFormed(es[1..], i - 1);
    }
  }

  /** A message is a SEQUENCE of well-formed elements that fill its contents exactly. */
  lemma {:induction false} MessageContents(e: Element)
    requires IsMessage(e)
    ensures e.Constructed?
    ensures Encode(e) == [0x30] + e.header.length + EncodeAll(e.children)
    ensures SpellsLength(e.header.length, |EncodeAll(e.children)|)
    ensures forall i :: 0 <= i < |e.children| ==> WellFormed(e.children[i])
  {
    assert IsConstructed(0x30) && !HasHighTag(0x30);
    assert HeaderBytes(e.header) == [0x30] + e.header.length;
    forall i | 0 <= i < |e.children|
      ensures WellFormed(e.children[i])
    {
      EachWellFormed(e.children, i);
    }
  }

  function EmptyString(): Element {
    Primitive(Header(0x04, [], [0]), [])
  }

  function Copies(n: nat): (es: seq<Element>)
    ensures |es| == n
  {
    if n == 0 then [] else [EmptyString()] + Copies(n - 1)
  }

  lemma {:induction false} CopiesMeasured(n: nat)
    ensures AllWellFormed(Copies(n)) && |EncodeAll(Copies(n))| == 2 * n && NodesAll(Copies(n)) == n
    ensures HeightAll(Copies(n)) <= 1
  {
    if n > 0 {
      CopiesMeasured(n - 1);
      assert Copies(n)[1..] == Copies(n - 1);
    }
  }

  /** A SEQUENCE of n empty strings, whatever the form of its length octets: a message up to 4095 of them. */
  lemma {:induction false} WideExactly(length: Bytes, n: nat)
    requires SpellsLength(length, 2 * n)
    ensures IsMessage(Constructed(Header(0x30, [], length), Copies(n))) <==> n <= 4095
  {
    CopiesMeasured(n);
  }

  // ---------------------------------------------------------------- the frames of the tests

  ghost predicate IsFrame(frame: Bytes) {
    exists e :: IsMessage(e) && Encode(e) == frame
  }

  lemma {:induction false} FrameOfMessage(frame: Bytes) returns (e: Element)
    requires IsFrame(frame)
    ensures IsMessage(e) && e.Constructed? && frame == [0x30] + e.header.length + EncodeAll(e.children)
    ensures |frame| >= 2 && frame[0] == 0x30 && frame[1] == e.header.length[0]
  {
    e :| IsMessage(e) && Encode(e) == frame;
    MessageContents(e);
  }

  lemma {:induction false} ShortElement(e: Element)
    requires WellFormed(e)
    ensures |Encode(e)| >= 2 && Encode(e)[0] == e.header.tag
    ensures !HasHighTag(Encode(e)[0]) && !TopBit(Encode(e)[1]) ==> |Encode(e)| == 2 + Encode(e)[1]
  {
  }

  /** In a frame with short forms, the first element announces no more octets than follow it. */
  lemma {:induction false} FirstElementFits(frame: Bytes)
    requires IsFrame(frame) && |frame| >= 4
    requires !TopBit(frame[1]) && !HasHighTag(frame[2]) && !TopBit(frame[3])
    ensures 4 + frame[3] <= |frame|
  {
    var e := FrameOfMessage(frame);
    var contents := EncodeAll(e.children);
    assert contents == frame[2..];
    assert contents == Encode(e.children[0]) + EncodeAll(e.children[1..]);
    EachWellFormed(e.children, 0);
    ShortElement(e.children[0]);
  }

  /** The malformed frames of framing_test.go. */
  lemma {:induction false} MalformedRefused()
    ensures !IsFrame([]) && !IsFrame([0x30, 0x80]) && !IsFrame([0x30, 0x85, 1, 2, 3, 4, 5])
    ensures !IsFrame([0x30, 3, 4, 5, 0]) && !IsFrame([0x30, 0, 0]) && !IsFrame([4, 0])
  {
    forall frame | IsFrame(frame)
      ensures frame != [] && frame != [0x30, 0x80] && frame != [0x30, 0x85, 1, 2, 3, 4, 5]
      ensures frame != [0x30, 0, 0] && frame != [4, 0] && frame != [0x30, 3, 4, 5, 0]
    {
      if |frame| >= 4 && !TopBit(frame[1]) && !HasHighTag(frame[2]) && !TopBit(frame[3]) {
        FirstElementFits(frame);
      }
      var e := FrameOfMessage(frame);
      assert SpellsLength(e.header.length, |EncodeAll(e.children)|);
    }
  }

  lemma {:induction false} Single(e: Element)
    requires WellFormed(e)
    ensures EncodeAll([e]) == Encode(e) && AllWellFormed([e]) && NodesAll([e]) == Nodes(e) && HeightAll([e]) == 1 + Height(e)
  {
  }

  /** Primitive contents are not looked into: a SEQUENCE of one octet string of up to 125 octets, whatever they are. */
  lemma {:induction false} AnyStringAccepted(content: Bytes)
    requires |content| <= 125
    ensures IsFrame([0x30, 2 + |content|, 4, |content|] + content)
  {
    var kid := Primitive(Header(4, [], [|content|]), content);
    var e := Constructed(Header(0x30, [], [2 + |content|]), [kid]);
    Single(kid);
    assert Encode(kid) == [4, |content|] + content;
    assert IsMessage(e) && Encode(e) == [0x30, 2 + |content|, 4, |content|] + content;
  }
}
