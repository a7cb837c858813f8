/** The connection stack of an LDAP lookup: a raw socket, a byte budget on top of it (directory/ldap/reader.go) and the
    framing guard on top of that (directory/ldap/framing.go). Slices are an array with a range, filled in place. */
module Framing {
  import opened Octets
  import opened BerGrammar
  import opened BerValidator

  const BUDGET := 0x10_0000
  const MAX_FRAMES := 16

  datatype Error = InvalidFrame | Eof | UnexpectedEof | Network

  /** What one read of the socket finds: at most `count` bytes, and possibly an error beside them. */
  datatype Arrival = Arrival(count: nat, fail: bool)

  /** The error the next read reports. */
  function Answer(arrivals: seq<Arrival>): (err: Option<Error>)
    ensures err != Some(InvalidFrame)
  {
    if arrivals == [] then Some(Eof) else if arrivals[0].fail then Some(Network) else None
  }

  /** How many reads in a row bring something and no error. */
  function Supply(arrivals: seq<Arrival>): nat {
    if arrivals == [] || arrivals[0].fail || arrivals[0].count == 0 then 0 else 1 + Supply(arrivals[1..])
  }

  function Min(a: int, b: int): int {
    if a < b then a else b
  }

  /** The network. The peer's bytes are fixed; how they are cut into reads is an arbitrary finite script, and a read
      beyond the script reports the end of the stream. */
  class RawConn {
    const stream: Bytes
    var taken: nat
    var arrivals: seq<Arrival>
    ghost var errors: nat // how many reads have reported an error

    ghost predicate Valid()
      reads this
    {
      taken <= |stream|
    }

    constructor (stream: Bytes, arrivals: seq<Arrival>)
      ensures Valid() && taken == 0 && this.stream == stream && this.arrivals == arrivals && errors == 0
    {
      errors := 0;
      this.stream := stream;
      this.taken := 0;
      this.arrivals := arrivals;
    }

    method Read(p: array<byte>, lo: nat, hi: nat) returns (n: nat, err: Option<Error>)
      requires Valid() && lo <= hi <= p.Length
      modifies this, p
      ensures Valid() && n <= hi - lo && taken == old(taken) + n
      ensures n == if old(arrivals) == [] then 0 else Min(old(arrivals)[0].count, Min(hi - lo, |stream| - old(taken)))
      ensures arrivals == if old(arrivals) == [] then [] else old(arrivals)[1..]
      ensures forall i :: lo <= i < lo + n ==> p[i] == stream[old(taken) + i - lo]
      ensures forall i :: 0 <= i < p.Length && !(lo <= i < lo + n) ==> p[i] == old(p[i])
      ensures err == Answer(old(arrivals)) && errors == old(errors) + if err.Some? then 1 else 0
      ensures err.None? ==> |arrivals| < |old(arrivals)|
    {
      if arrivals == [] {
        errors := errors + 1;
        return 0, Some(Eof);
      }
      var next := arrivals[0];
      arrivals := arrivals[1..];
      n := if next.count < hi - lo then next.count else hi - lo;
      n := if n < |stream| - taken then n else |stream| - taken;
      forall i | 0 <= i < n {
        p[lo + i] := stream[taken + i];
      }
      taken := taken + n;
      err := if next.fail then Some(Network) else None;
      errors := errors + if next.fail then 1 else 0;
    }
  }

  /** directory/ldap/reader.go: at most `remaining` further bytes ever leave the connection. */
  class BoundedConn {
    const conn: RawConn
    var remaining: int

    ghost predicate Valid()
      reads this, conn
    {
      conn.Valid() && 0 <= remaining && remaining + conn.taken == BUDGET
    }

    constructor (conn: RawConn)
      requires conn.Valid() && conn.taken == 0
      ensures Valid() && this.conn == conn && remaining == 1_048_576
    {
      this.conn := conn;
      this.remaining := BUDGET;
    }

    /** How far into the stream reading is certain to get: reads that bring something, within the budget. */
    ghost function Reach(): int
      reads this, conn
    {
      conn.taken + Min(Supply(conn.arrivals), Min(remaining, |conn.stream| - conn.taken))
    }

    /** Since the connection had `before` errors it has had another, or its budget is used up. */
    ghost predicate Broken(before: nat)
      reads this, conn
    {
      conn.errors > before || remaining == 0
    }

    method Read(p: array<byte>, lo: nat, hi: nat) returns (n: nat, err: Option<Error>)
      requires Valid() && lo <= hi <= p.Length
      modifies this, conn, p
      ensures Valid() && n <= hi - lo && conn.taken == old(conn.taken) + n && old(conn.errors) <= conn.errors
      ensures forall i :: lo <= i < lo + n ==> p[i] == conn.stream[old(conn.taken) + i - lo]
      ensures forall i :: 0 <= i < p.Length && !(lo <= i < lo + n) ==> p[i] == old(p[i])
      ensures err == if old(remaining) == 0 then Some(UnexpectedEof) else Answer(old(conn.arrivals))
      ensures n == if old(conn.arrivals) == [] then 0
                   else Min(old(conn.arrivals)[0].count, Min(hi - lo, Min(old(remaining), |conn.stream| - old(conn.taken))))
      ensures lo < hi ==> old(Reach()) <= Reach() && (old(conn.taken) < old(Reach()) ==> n > 0 && err.None?)
      ensures err.Some? ==> Broken(old(conn.errors))
      ensures err.None? ==> |conn.arrivals| < |old(conn.arrivals)|
    {
      if remaining <= 0 {
        return 0, Some(UnexpectedEof);
      }
      n, err := conn.Read(p, lo, if hi - lo > remaining then lo + remaining else hi);
      remaining := remaining - n;
    }

    /** io.ReadFull on p[lo..hi]: an error that arrives with the last byte is dropped, one that arrives earlier stops, and
        nothing else does. */
    method ReadFull(p: array<byte>, lo: nat, hi: nat) returns (err: Option<Error>)
      requires Valid() && lo <= hi <= p.Length
      modifies this, conn, p
      ensures Valid() && old(conn.taken) <= conn.taken <= old(conn.taken) + (hi - lo) && old(conn.errors) <= conn.errors
      ensures err.None? <==> conn.taken == old(conn.taken) + (hi - lo)
      ensures old(Reach()) <= Reach() && (old(conn.taken) + (hi - lo) <= old(Reach()) ==> err.None?)
      ensures err.None? ==> p[lo..hi] == conn.stream[old(conn.taken)..conn.taken]
      ensures err.Some? ==> Broken(old(conn.errors))
      ensures forall i :: 0 <= i < p.Length && !(lo <= i < hi) ==> p[i] == old(p[i])
      ensures err != Some(InvalidFrame)
    {
      var n := 0;
      err := None;
      while n < hi - lo && err.None?
        invariant Valid() && 0 <= n <= hi - lo && conn.taken == old(conn.taken) + n
        invariant forall i :: lo <= i < lo + n ==> p[i] == conn.stream[old(conn.taken) + i - lo]
        invariant forall i :: 0 <= i < p.Length && !(lo <= i < hi) ==> p[i] == old(p[i])
        invariant err != Some(InvalidFrame) && old(conn.errors) <= conn.errors
        invariant err.Some? ==> Broken(old(conn.errors))
        invariant old(Reach()) <= Reach() && (err.Some? && n < hi - lo ==> old(Reach()) < old(conn.taken) + (hi - lo))
        decreases err.None?, |conn.arrivals|
      {
        var k;
        k, err := Read(p, lo + n, hi);
        n := n + k;
      }
      if n == hi - lo {
        err := None;
      } else if n > 0 && err == Some(Eof) {
        err := Some(UnexpectedEof);
      }
    }
  }

  /** No LDAP message starts here. */
  ghost predicate NoMessage(s: Bytes) {
    forall e :: IsMessage(e) ==> !(Encode(e) <= s)
  }

  /** Where the header at the front of s says the SEQUENCE ends, if it is a header Read accepts. */
  function Extent(s: Bytes): Option<nat> {
    if |s| < 2 || s[0] != SEQUENCE_TAG then None
    else if !TopBit(s[1]) then Some(2 + s[1])
    else
      var octets := s[1] - 128;
      if 1 <= octets <= 4 && |s| >= 2 + octets then Some(2 + octets + BigEndian(s[2..2 + octets])) else None
  }

  /** The octets stop short of the frame they announce, or before they announce one. */
  predicate Short(s: Bytes) {
    Extent(s).None? || |s| < Extent(s).value
  }

  predicate Transport(err: Option<Error>) {
    err.Some? && err != Some(InvalidFrame)
  }

  /** How many octets Read takes for a header at this place. */
  function HeaderLength(stream: Bytes, from: nat): nat {
    if from + 1 < |stream| && stream[from] == SEQUENCE_TAG && 128 < stream[from + 1] <= 132
    then stream[from + 1] - 126 else 2
  }

  lemma HeaderBeforeExtent(stream: Bytes, from: nat)
    requires from <= |stream| && Extent(stream[from..]).Some?
    ensures HeaderLength(stream, from) <= Extent(stream[from..]).value
  {
  }

  /** Read's own header parse and the grammar agree: every SEQUENCE at the front of s ends at Extent(s). */
  lemma {:induction false} ExtentExact(s: Bytes, e: Element)
    requires WellFormed(e) && e.header.tag == SEQUENCE_TAG && Encode(e) <= s
    ensures Extent(s) == Some(|Encode(e)|)
  {
    var h := e.header;
    ElementHasHeader(s, e);
    HeaderParts(h, s);
    assert h.length[0] == s[1..][0];
    if TopBit(s[1]) {
      assert h.length == s[1..1 + |h.length|];
      assert h.length[1..] == s[2..1 + |h.length|];
    }
  }

  /** The `end != len(frame)` test never fails on a frame of the length its header announces. */
  lemma {:induction false} AssembledFrameIsWhole(frame: Bytes, e: Element)
    requires Extent(frame) == Some(|frame|)
    requires WellFormed(e) && Encode(e) <= frame
    ensures Encode(e) == frame
  {
    ElementHasHeader(frame, e);
    HeaderParts(e.header, frame);
    ExtentExact(frame, e);
  }

  /** A long-form length takes exactly the octets its first one announces. */
  lemma LongHeader(prefix: Bytes, extra: Bytes)
    requires |prefix| == 2 && prefix[0] == SEQUENCE_TAG && 129 <= prefix[1] <= 132 && 128 + |extra| <= prefix[1]
    ensures Extent(prefix + extra) ==
            if 128 + |extra| == prefix[1] then Some(2 + |extra| + BigEndian(extra)) else None
  {
    var s := prefix + extra;
    assert s[0] == prefix[0] && s[1] == prefix[1];
    assert s[2..2 + |extra|] == extra;
  }

  /** The first octets alone settle the extent. */
  lemma ExtentPrefix(header: Bytes, s: Bytes)
    requires header <= s && Extent(header).Some?
    ensures Extent(s) == Extent(header)
  {
    if TopBit(header[1]) {
      var octets := header[1] - 128;
      assert header[2..2 + octets] == s[2..2 + octets];
    }
  }

  /** The header octets Read refuses: another tag, an unusable length form, or too large an extent. */
  predicate Refused(header: Bytes) {
    && |header| >= 2
    && (|| header[0] != SEQUENCE_TAG
        || (TopBit(header[1]) && !(1 <= header[1] - 128 <= 4))
        || (Extent(header).Some? && Extent(header).value > MAX_FRAME))
  }

  lemma {:induction false} RefusedNoMessage(header: Bytes, s: Bytes)
    requires header <= s && Refused(header)
    ensures NoMessage(s)
  {
    forall e | IsMessage(e)
      ensures !(Encode(e) <= s)
    {
      if Encode(e) <= s {
        ExtentExact(s, e);
        if Extent(header).Some? {
          ExtentPrefix(header, s);
        }
      }
    }
  }

  lemma PrefixFrom(s: Bytes, from: nat, to: nat)
    requires from <= to <= |s|
    ensures s[from..to] <= s[from..]
  {
  }

  /** If the frame Read assembled from its header is no message, no message starts here at all. */
  lemma {:induction false} AssembledFrameOnly(s: Bytes, header: Bytes, frame: Bytes)
    requires header <= frame <= s && Extent(header) == Some(|frame|)
    requires !exists e :: IsMessage(e) && Encode(e) == frame
    ensures NoMessage(s)
  {
    ExtentPrefix(header, s);
    forall e | Encode(e) <= s
      ensures !IsMessage(e)
    {
      assert Encode(e) == s[..|Encode(e)|];
      if IsMessage(e) {
        ExtentExact(s, e);
      }
    }
  }

  /** The message is next in the stream, and reading is certain to get to its end. */
  ghost predicate Offers(conn: BoundedConn, m: Element)
    reads conn, conn.conn
  {
    && conn.conn.taken <= |conn.conn.stream|
    && Encode(m) <= conn.conn.stream[conn.conn.taken..] && conn.conn.taken + |Encode(m)| <= conn.Reach()
  }

  /** Reads and validates one frame. Success means exactly one message was consumed; InvalidFrame means there was none;
      any other error means the connection broke before the frame was complete. A message that is certain to arrive is
      read. */
  method ReadFrame(conn: BoundedConn) returns (frame: Bytes, err: Option<Error>, ghost e: Element)
    requires conn.Valid()
    modifies conn, conn.conn
    ensures conn.Valid() && old(conn.conn.taken) <= conn.conn.taken && old(conn.conn.errors) <= conn.conn.errors
    ensures err.None? ==> IsMessage(e) && Encode(e) == frame == conn.conn.stream[old(conn.conn.taken)..conn.conn.taken]
    ensures err == Some(InvalidFrame) ==> NoMessage(conn.conn.stream[old(conn.conn.taken)..])
    ensures Transport(err) ==>
              conn.Broken(old(conn.conn.errors)) && Short(conn.conn.stream[old(conn.conn.taken)..conn.conn.taken])
    ensures old(conn.Reach()) <= conn.Reach()
    ensures forall m :: IsMessage(m) && old(Offers(conn, m)) ==> err.None? && e == m
  {
    ghost var (stream, from) := (conn.conn.stream, old(conn.conn.taken));
    e := Primitive(Header(0, [], []), []);
    ghost var header;
    frame, err, header := Assemble(conn);
    if err.None? {
      PrefixFrom(stream, from, conn.conn.taken);
      var invalid;
      ghost var calls, deepest;
      invalid, e, calls, deepest := ValidateFrame(frame);
      if invalid {
        err := Some(InvalidFrame);
        AssembledFrameOnly(stream[from..], header, frame);
      } else {
        OnlyMessage(stream[from..], e);
      }
    }
    OffersExtent(stream, from);
  }

  lemma {:induction false} OffersExtent(stream: Bytes, from: nat)
    requires from <= |stream|
    ensures forall m :: IsMessage(m) && Encode(m) <= stream[from..] ==> Extent(stream[from..]) == Some(|Encode(m)|)
  {
    forall m | IsMessage(m) && Encode(m) <= stream[from..]
      ensures Extent(stream[from..]) == Some(|Encode(m)|)
    {
      ExtentExact(stream[from..], m);
    }
  }

  /** The frame its header announces, not yet validated. */
  method Assemble(conn: BoundedConn) returns (frame: Bytes, err: Option<Error>, ghost header: Bytes)
    requires conn.Valid()
    modifies conn, conn.conn
    ensures conn.Valid() && old(conn.conn.taken) <= conn.conn.taken && old(conn.conn.errors) <= conn.conn.errors
    ensures err.None? ==> header <= frame == conn.conn.stream[old(conn.conn.taken)..conn.conn.taken]
    ensures err.None? ==> Extent(header) == Some(|frame|)
    ensures err == Some(InvalidFrame) ==> NoMessage(conn.conn.stream[old(conn.conn.taken)..])
    ensures Transport(err) ==>
              conn.Broken(old(conn.conn.errors)) && Short(conn.conn.stream[old(conn.conn.taken)..conn.conn.taken])
    ensures old(conn.Reach()) <= conn.Reach()
    ensures var extent := Extent(conn.conn.stream[old(conn.conn.taken)..]);
            extent.Some? && old(conn.conn.taken) + extent.value <= old(conn.Reach()) ==> !Transport(err)
  {
    ghost var (stream, from) := (conn.conn.stream, old(conn.conn.taken));
    if Extent(stream[from..]).Some? {
      HeaderBeforeExtent(stream, from);
    }
    frame := [];
    var octets, length;
    octets, length, err := ReadFrameHeader(conn);
    header := octets;
    if err.Some? {
      if err == Some(InvalidFrame) {
        RefusedNoMessage(header, stream[from..]);
      }
      return;
    }
    PrefixFrom(stream, from, conn.conn.taken);
    ExtentPrefix(header, stream[from..]);
    frame, err := ReadContents(conn, octets, length, from);
  }

  /** Two messages never start at one place. */
  lemma {:induction false} OnlyMessage(s: Bytes, e: Element)
    requires IsMessage(e) && Encode(e) <= s
    ensures forall m :: IsMessage(m) && Encode(m) <= s ==> m == e
  {
    forall m | IsMessage(m) && Encode(m) <= s
      ensures m == e
    {
      ExtentExact(s, e);
      ExtentExact(s, m);
      MessageUnique(e, m);
    }
  }

  /** Allocates the frame, copies the header in and fills the rest from the connection. */
  method ReadContents(conn: BoundedConn, header: Bytes, length: nat, ghost from: nat)
    returns (frame: Bytes, err: Option<Error>)
    requires conn.Valid() && from <= conn.conn.taken && header == conn.conn.stream[from..conn.conn.taken]
    requires Extent(header) == Some(|header| + length)
    modifies conn, conn.conn
    ensures conn.Valid() && old(conn.conn.taken) <= conn.conn.taken && old(conn.conn.errors) <= conn.conn.errors
    ensures err != Some(InvalidFrame)
    ensures err.Some? ==> conn.Broken(old(conn.conn.errors)) && Short(conn.conn.stream[from..conn.conn.taken])
    ensures old(conn.Reach()) <= conn.Reach() && (old(conn.conn.taken) + length <= old(conn.Reach()) ==> err.None?)
    ensures err.None? ==> |frame| == |header| + length && header <= frame == conn.conn.stream[from..conn.conn.taken]
  {
    var bytes := new byte[|header| + length];
    CopyFront(bytes, header);
    err := conn.ReadFull(bytes, |header|, bytes.Length);
    frame := bytes[..];
    if err.None? {
      assert frame == header + bytes[|header|..bytes.Length];
      Slices(conn.conn.stream, from, old(conn.conn.taken), conn.conn.taken);
    } else {
      ExtentPrefix(header, conn.conn.stream[from..conn.conn.taken]);
    }
  }

  /** Reads the octets in front of a frame's contents, refusing an oversized frame before any of its contents. */
  method ReadFrameHeader(conn: BoundedConn) returns (header: Bytes, length: nat, err: Option<Error>)
    requires conn.Valid()
    modifies conn, conn.conn
    ensures conn.Valid() && old(conn.conn.taken) <= conn.conn.taken && old(conn.conn.errors) <= conn.conn.errors
    ensures Transport(err) ==>
              conn.Broken(old(conn.conn.errors)) && Extent(conn.conn.stream[old(conn.conn.taken)..conn.conn.taken]).None?
    ensures err.None? || err == Some(InvalidFrame) ==> header == conn.conn.stream[old(conn.conn.taken)..conn.conn.taken]
    ensures err.None? ==> Extent(header) == Some(|header| + length)
    ensures err == Some(InvalidFrame) ==> Refused(header)
    ensures old(conn.Reach()) <= conn.Reach()
    ensures old(conn.conn.taken) + HeaderLength(conn.conn.stream, old(conn.conn.taken)) <= old(conn.Reach()) ==>
              !Transport(err)
  {
    length := 0;
    header, err := ReadPrefix(conn);
    if err.Some? {
      return;
    }
    if header[0] != SEQUENCE_TAG {
      return header, length, Some(InvalidFrame);
    }
    length := header[1];
    if TopBit(header[1]) {
      if header[1] - 128 < 1 || header[1] - 128 > 4 {
        return header, length, Some(InvalidFrame);
      }
      header, length, err := ReadLongHeader(conn, header, old(conn.conn.taken));
      if err.Some? {
        return;
      }
    }
    if length > MAX_FRAME - |header| {
      err := Some(InvalidFrame);
    }
  }

  /** The tag and the first length octet. */
  method ReadPrefix(conn: BoundedConn) returns (prefix: Bytes, err: Option<Error>)
    requires conn.Valid()
    modifies conn, conn.conn
    ensures conn.Valid() && old(conn.conn.taken) <= conn.conn.taken && old(conn.conn.errors) <= conn.conn.errors
    ensures err.None? ==> |prefix| == 2 && prefix == conn.conn.stream[old(conn.conn.taken)..conn.conn.taken]
    ensures err.Some? ==> conn.Broken(old(conn.conn.errors)) && conn.conn.taken < old(conn.conn.taken) + 2
    ensures err != Some(InvalidFrame)
    ensures old(conn.Reach()) <= conn.Reach() && (old(conn.conn.taken) + 2 <= old(conn.Reach()) ==> err.None?)
  {
    var bytes := new byte[2];
    err := conn.ReadFull(bytes, 0, 2);
    prefix := bytes[..];
  }

  /** Completes a header whose length has the long form. */
  method ReadLongHeader(conn: BoundedConn, prefix: Bytes, ghost from: nat)
    returns (header: Bytes, length: nat, err: Option<Error>)
    requires conn.Valid() && from <= conn.conn.taken && prefix == conn.conn.stream[from..conn.conn.taken]
    requires |prefix| == 2 && prefix[0] == SEQUENCE_TAG && 129 <= prefix[1] <= 132
    modifies conn, conn.conn
    ensures conn.Valid() && old(conn.conn.taken) <= conn.conn.taken && old(conn.conn.errors) <= conn.conn.errors
    ensures Transport(err) ==>
              conn.Broken(old(conn.conn.errors)) && Extent(conn.conn.stream[from..conn.conn.taken]).None?
    ensures err.None? || err == Some(InvalidFrame) ==> header == conn.conn.stream[from..conn.conn.taken]
    ensures err.None? ==> Extent(header) == Some(|header| + length)
    ensures err == Some(InvalidFrame) ==> Refused(header)
    ensures old(conn.Reach()) <= conn.Reach()
    ensures old(conn.conn.taken) + (prefix[1] - 128) <= old(conn.Reach()) ==> !Transport(err)
  {
    var extra;
    extra, length, err := ReadLongLength(conn, prefix[1] - 128);
    Slices(conn.conn.stream, from, old(conn.conn.taken), conn.conn.taken);
    LongHeader(prefix, conn.conn.stream[old(conn.conn.taken)..conn.conn.taken]);
    header := prefix + extra;
  }

  /** The long form: `octets` more bytes, folded by the guarded loop. */
  method ReadLongLength(conn: BoundedConn, octets: nat) returns (extra: Bytes, length: nat, err: Option<Error>)
    requires conn.Valid() && 1 <= octets <= 4
    modifies conn, conn.conn
    ensures conn.Valid() && old(conn.conn.taken) <= conn.conn.taken && old(conn.conn.errors) <= conn.conn.errors
    ensures Transport(err) ==> conn.Broken(old(conn.conn.errors)) && conn.conn.taken < old(conn.conn.taken) + octets
    ensures old(conn.Reach()) <= conn.Reach() && (old(conn.conn.taken) + octets <= old(conn.Reach()) ==> !Transport(err))
    ensures err.None? || err == Some(InvalidFrame) ==>
              |extra| == octets && extra == conn.conn.stream[old(conn.conn.taken)..conn.conn.taken]
    ensures err.None? ==> length == BigEndian(extra)
    ensures err == Some(InvalidFrame) ==> BigEndian(extra) > MAX_LENGTH
  {
    var bytes := new byte[octets];
    extra, length := [], 0;
    err := conn.ReadFull(bytes, 0, octets);
    if err.None? {
      extra := bytes[..];
      var failed;
      length, failed := AccumulateLength(extra);
      err := if failed then Some(InvalidFrame) else None;
    }
  }

  method CopyFront(p: array<byte>, source: Bytes)
    requires |source| <= p.Length
    modifies p
    ensures p[..|source|] == source
    ensures forall i :: |source| <= i < p.Length ==> p[i] == old(p[i])
  {
    forall i | 0 <= i < |source| {
      p[i] := source[i];
    }
  }

  lemma LongerPrefix(a: Bytes, b: Bytes, c: Bytes, d: Bytes)
    requires a + b == c + d && |d| <= |b|
    ensures a <= c
  {
    assert a == (a + b)[..|a|];
    assert c == (c + d)[..|c|];
  }

  /** out consists of at most 16 messages and 1 MiB; all but the last message are complete in it. */
  ghost predicate Delivery(out: Bytes, messages: seq<Element>) {
    && |out| <= BUDGET
    && |messages| <= MAX_FRAMES && AllMessages(messages)
    && EncodeAll(messages[..Max(0, |messages| - 1)]) <= out <= EncodeAll(messages)
  }

  /** The accepted messages are what was handed out and what is still buffered, the buffer holds no more than the last
      one, and as long as nothing failed they are exactly what was taken from the stream. */
  ghost predicate Accounted(accepted: seq<Element>, delivered: Bytes, buffer: Bytes, stream: Bytes, taken: nat, failed: bool)
  {
    && |accepted| <= MAX_FRAMES
    && AllMessages(accepted)
    && delivered + buffer == EncodeAll(accepted)
    && (accepted != [] ==> |buffer| <= |Encode(accepted[|accepted| - 1])|)
    && |delivered| + |buffer| <= taken <= |stream|
    && (!failed ==> delivered + buffer == stream[..taken])
  }

  ghost predicate OneMore<T>(before: seq<T>, after: seq<T>) {
    |after| == |before| + 1 && before <= after
  }

  function Last<T>(s: seq<T>): T
    requires s != []
  {
    s[|s| - 1]
  }

  /** directory/ldap/framing.go. `accepted` and `delivered` record the messages validated and the bytes handed out since
      the connection was opened; `failed` says whether some Read has reported an error. */
  class FramedConn {
    const conn: BoundedConn
    var buffer: Bytes // what the bytes.Reader has left; empty for nil
    var frames: nat
    ghost var accepted: seq<Element>
    ghost var delivered: Bytes
    ghost var failed: bool

    ghost function Stream(): Bytes {
      conn.conn.stream
    }

    ghost predicate Valid()
      reads this, conn, conn.conn
    {
      conn.Valid() && frames == |accepted| && Accounted(accepted, delivered, buffer, Stream(), conn.conn.taken, failed)
    }

    /** m is the next message to be handed out, and certain to arrive. */
    ghost predicate Next(m: Element)
      reads this, conn, conn.conn
    {
      buffer == [] && frames < 16 && IsMessage(m) && Offers(conn, m)
    }

    constructor (conn: BoundedConn)
      requires conn.Valid() && conn.conn.taken == 0
      ensures Valid() && this.conn == conn && !failed && delivered == []
    {
      this.conn := conn;
      buffer, frames := [], 0;
      accepted, delivered, failed := [], [], false;
    }

    /** Whatever happens on the connection, the bytes handed out are whole messages up to the one in the buffer, at most
        16 of them and at most 1 MiB; until the first error they are a prefix of what the peer sent. */
    lemma {:induction false} Guarantee()
      requires Valid()
      ensures Delivery(delivered, accepted) && |accepted| <= 16 && |delivered| <= 1_048_576
      ensures !failed ==> delivered <= Stream()
    {
      assert delivered == EncodeAll(accepted)[..|delivered|];
      if accepted != [] {
        AllButLast();
      } else {
        assert accepted[..0] == [];
      }
    }

    lemma {:induction false} AllButLast()
      requires Valid() && accepted != []
      ensures EncodeAll(accepted[..|accepted| - 1]) <= delivered
    {
      var (front, last) := (accepted[..|accepted| - 1], accepted[|accepted| - 1]);
      assert accepted == front + [last];
      EncodeSingle(last);
      EncodeAllConcat(front, [last]);
      LongerPrefix(EncodeAll(front), Encode(last), delivered, buffer);
    }

    method Read(p: array<byte>) returns (n: nat, err: Option<Error>)
      requires Valid()
      modifies this, conn, conn.conn, p
      ensures Valid()
      ensures n <= p.Length && delivered == old(delivered) + p[..n]
      ensures forall i :: n <= i < p.Length ==> p[i] == old(p[i])
      ensures failed == (old(failed) || err.Some?)
      ensures err.Some? ==> n == 0 && old(buffer) == [] && accepted == old(accepted)
      ensures err.None? && p.Length > 0 ==> n > 0
      ensures p.Length == 0 ==> err.None? && accepted == old(accepted) && buffer == old(buffer)
      ensures old(buffer) != [] ==>
                err.None? && accepted == old(accepted) && n == Min(p.Length, |old(buffer)|) && p[..n] == old(buffer)[..n]
      ensures old(buffer) == [] && p.Length > 0 && err.None? ==>
                && OneMore(old(accepted), accepted)
                && n == Min(p.Length, |Encode(Last(accepted))|) && p[..n] == Encode(Last(accepted))[..n]
      ensures p.Length > 0 ==> forall m :: old(Next(m)) ==> err.None? && accepted == old(accepted) + [m]
      ensures old(buffer) == [] && p.Length > 0 && old(frames) == 16 ==> err == Some(InvalidFrame)
      ensures old(conn.Reach()) <= conn.Reach()
      ensures err == Some(InvalidFrame) ==>
                old(frames) == MAX_FRAMES || NoMessage(Stream()[old(conn.conn.taken)..])
      ensures old(conn.conn.taken) <= conn.conn.taken && old(conn.conn.errors) <= conn.conn.errors
      ensures Transport(err) ==>
                conn.Broken(old(conn.conn.errors)) && Short(Stream()[old(conn.conn.taken)..conn.conn.taken])
    {
      n, err := 0, None;
      if p.Length == 0 {
        return;
      }
      err := Refill();
      if err.None? {
        n := ReadBuffer(p);
      }
    }

    /** Makes sure that something is buffered. */
    method Refill() returns (err: Option<Error>)
      requires Valid()
      modifies this`buffer, this`frames, this`accepted, this`failed, conn, conn.conn
      ensures Valid() && failed == (old(failed) || err.Some?)
      ensures err.None? ==> buffer != []
      ensures err.Some? ==> old(buffer) == [] && accepted == old(accepted)
      ensures old(buffer) != [] ==> err.None? && accepted == old(accepted) && buffer == old(buffer)
      ensures old(buffer) == [] && err.None? ==> OneMore(old(accepted), accepted) && buffer == Encode(Last(accepted))
      ensures forall m :: old(Next(m)) ==> err.None? && accepted == old(accepted) + [m]
      ensures old(buffer) == [] && old(frames) == MAX_FRAMES ==> err == Some(InvalidFrame)
      ensures old(conn.Reach()) <= conn.Reach()
      ensures err == Some(InvalidFrame) ==>
                old(frames) == MAX_FRAMES || NoMessage(Stream()[old(conn.conn.taken)..])
      ensures old(conn.conn.taken) <= conn.conn.taken && old(conn.conn.errors) <= conn.conn.errors
      ensures Transport(err) ==>
                conn.Broken(old(conn.conn.errors)) && Short(Stream()[old(conn.conn.taken)..conn.conn.taken])
    {
      err := None;
      if buffer == [] {
        err := Fill();
      }
    }

    /** bytes.Reader.Read on what is left of the frame. */
    method ReadBuffer(p: array<byte>) returns (n: nat)
      requires Valid()
      modifies this`buffer, this`delivered, p
      ensures Valid() && n == Min(p.Length, |old(buffer)|) && p[..n] == old(buffer)[..n]
      ensures delivered == old(delivered) + p[..n]
      ensures forall i :: n <= i < p.Length ==> p[i] == old(p[i])
    {
      n := if p.Length < |buffer| then p.Length else |buffer|;
      CopyFront(p, buffer[..n]);
      Take(n);
    }

    /** Moves the next n buffered bytes to the caller. */
    method Take(n: nat)
      requires Valid() && n <= |buffer|
      modifies this`buffer, this`delivered
      ensures Valid() && delivered == old(delivered) + old(buffer)[..n] && buffer == old(buffer)[n..]
    {
      var (front, rest) := (buffer[..n], buffer[n..]);
      assert buffer == front + rest;
      Assoc(delivered, front, rest);
      delivered := delivered + front;
      buffer := rest;
    }

    /** Replaces an exhausted buffer by the next frame. */
    method Fill() returns (err: Option<Error>)
      requires Valid() && buffer == []
      modifies this`buffer, this`frames, this`accepted, this`failed, conn, conn.conn
      ensures Valid()
      ensures failed == (old(failed) || err.Some?)
      ensures err.None? ==> buffer != []
      ensures err.None? ==> OneMore(old(accepted), accepted) && buffer == Encode(Last(accepted))
      ensures forall m :: old(Next(m)) ==> err.None? && accepted == old(accepted) + [m]
      ensures old(frames) == MAX_FRAMES ==> err == Some(InvalidFrame)
      ensures old(conn.Reach()) <= conn.Reach()
      ensures err.Some? ==> buffer == [] && accepted == old(accepted)
      ensures err == Some(InvalidFrame) ==>
                old(frames) == MAX_FRAMES || NoMessage(Stream()[old(conn.conn.taken)..])
      ensures old(conn.conn.taken) <= conn.conn.taken && old(conn.conn.errors) <= conn.conn.errors
      ensures Transport(err) ==>
                conn.Broken(old(conn.conn.errors)) && Short(Stream()[old(conn.conn.taken)..conn.conn.taken])
    {
      if frames >= MAX_FRAMES {
        failed := true;
        return Some(InvalidFrame);
      }
      var frame;
      ghost var e;
      frame, err, e := ReadFrame(conn);
      if err.Some? {
        failed := true;
        return;
      }
      Accept(frame, e, old(conn.conn.taken));
    }

    /** Stores a validated frame as the new buffer. */
    method Accept(frame: Bytes, ghost e: Element, ghost from: nat)
      requires conn.Valid() && from <= conn.conn.taken
      requires IsMessage(e) && Encode(e) == frame == Stream()[from..conn.conn.taken]
      requires buffer == [] && frames == |accepted| < MAX_FRAMES && AllMessages(accepted)
      requires delivered == EncodeAll(accepted) && |delivered| <= from
      requires !failed ==> delivered == Stream()[..from]
      modifies this`buffer, this`frames, this`accepted
      ensures Valid() && buffer == frame != []
      ensures accepted == old(accepted) + [e]
    {
      buffer := frame;
      frames := frames + 1;
      EncodeSingle(e);
      EncodeAllConcat(accepted, [e]);
      EncodedAtLeastTwo(e);
      Slices(Stream(), 0, from, conn.conn.taken);
      accepted := accepted + [e];
    }
  }

  function Positive(sizes: seq<nat>): nat {
    if sizes == [] then 0 else Positive(sizes[..|sizes| - 1]) + if sizes[|sizes| - 1] > 0 then 1 else 0
  }

  /** The peer sends these messages, at most sixteen of them, and reading is certain to get to their end. */
  ghost predicate Promised(c: FramedConn, messages: seq<Element>)
    reads c, c.conn, c.conn.conn
  {
    && AllMessages(messages) && |messages| <= 16
    && EncodeAll(messages) <= c.Stream() && |EncodeAll(messages)| <= c.conn.Reach()
    && (c.accepted <= messages || messages <= c.accepted)
  }

  lemma {:induction false} NextPromised(accepted: seq<Element>, messages: seq<Element>, stream: Bytes)
    requires accepted < messages && EncodeAll(messages) <= stream
    ensures var (done, next) := (EncodeAll(accepted), Encode(messages[|accepted|]));
            |done| + |next| <= |EncodeAll(messages)| <= |stream| && next <= stream[|done|..]
  {
    var (m, rest) := (messages[|accepted|], messages[|accepted| + 1..]);
    assert messages == accepted + ([m] + rest);
    EncodeAllConcat(accepted, [m] + rest);
    EncodeAllConcat([m], rest);
    EncodeSingle(m);
    var (done, next, last) := (EncodeAll(accepted), Encode(m), EncodeAll(rest));
    assert EncodeAll(messages) == done + (next + last);
    assert stream[|done|..][..|next|] == next;
  }

  lemma {:induction false} WholePrefix(messages: seq<Element>, accepted: seq<Element>)
    requires messages <= accepted
    ensures EncodeAll(messages) <= EncodeAll(accepted)
  {
    assert accepted == messages + accepted[|messages|..];
    EncodeAllConcat(messages, accepted[|messages|..]);
  }

  /** Accepting nothing, the next message, or one after the last keeps to the promise. */
  lemma StillPromised(before: seq<Element>, after: seq<Element>, messages: seq<Element>)
    requires before <= messages || messages <= before
    requires after == before || OneMore(before, after)
    requires before < messages && after != before ==> after == before + [messages[|before|]]
    ensures after <= messages || messages <= after
  {
  }

  lemma {:induction false} NextIsPromised(c: FramedConn, messages: seq<Element>)
    requires c.Valid() && !c.failed && Promised(c, messages) && c.accepted < messages && c.buffer == []
    ensures c.Next(messages[|c.accepted|])
  {
    NextPromised(c.accepted, messages, c.Stream());
    assert c.delivered + c.buffer == c.delivered;
  }

  /** One Read keeps the promise; if it fails, the promise has been met in full. */
  method ReadPromised(c: FramedConn, p: array<byte>, ghost messages: seq<Element>) returns (n: nat, err: Option<Error>)
    requires c.Valid() && !c.failed && Promised(c, messages)
    modifies c, c.conn, c.conn.conn, p
    ensures c.Valid() && c.failed == err.Some? && Promised(c, messages)
    ensures n <= p.Length && c.delivered == old(c.delivered) + p[..n] && (err.None? && p.Length > 0 ==> n > 0)
    ensures err.Some? ==> c.delivered == old(c.delivered) == EncodeAll(c.accepted) && messages <= c.accepted
    ensures err.Some? ==> c.delivered <= c.Stream() && Delivery(c.delivered, c.accepted)
    ensures err == Some(InvalidFrame) ==> |c.accepted| == MAX_FRAMES || NoMessage(c.Stream()[|c.delivered|..])
    ensures old(c.conn.conn.errors) <= c.conn.conn.errors
    ensures Transport(err) ==>
              && |c.delivered| <= c.conn.conn.taken <= |c.Stream()|
              && c.conn.Broken(old(c.conn.conn.errors)) && Short(c.Stream()[|c.delivered|..c.conn.conn.taken])
  {
    ghost var before := c.accepted;
    if before < messages && c.buffer == [] {
      NextIsPromised(c, messages);
    }
    c.Guarantee();
    n, err := c.Read(p);
    StillPromised(before, c.accepted, messages);
    c.Guarantee();
  }

  lemma PositiveNext(sizes: seq<nat>, k: nat)
    requires k < |sizes|
    ensures Positive(sizes[..k + 1]) == Positive(sizes[..k]) + if sizes[k] > 0 then 1 else 0
  {
    assert sizes[..k + 1][..k] == sizes[..k];
  }

  /** Any sequence of Read calls, whatever the buffer sizes and however the socket cuts its bytes, up to the first error.
      What comes out is a prefix of the peer's bytes made of whole messages, the last perhaps still in progress; a frame
      is only refused where no message starts, or after the sixteenth; and any other error means that the socket reported
      one or the budget ran out, in the middle of a frame. Messages that are certain to arrive are handed out in full
      before any error, and after as many reads as they have bytes. */
  method Session(c: FramedConn, sizes: seq<nat>, ghost messages: seq<Element>) returns (out: Bytes, err: Option<Error>)
    requires c.Valid() && !c.failed && c.delivered == [] && Promised(c, messages)
    modifies c, c.conn, c.conn.conn
    ensures out <= c.Stream() && Delivery(out, c.accepted)
    ensures err.Some? || Positive(sizes) >= |EncodeAll(messages)| ==> EncodeAll(messages) <= out
    ensures err == Some(InvalidFrame) ==>
              && out == EncodeAll(c.accepted)
              && (|c.accepted| == MAX_FRAMES || NoMessage(c.Stream()[|out|..]))
    ensures Transport(err) ==>
              && out == EncodeAll(c.accepted) && |out| <= c.conn.conn.taken <= |c.Stream()|
              && c.conn.Broken(old(c.conn.conn.errors)) && Short(c.Stream()[|out|..c.conn.conn.taken])
  {
    out, err := [], None;
    for k := 0 to |sizes|
      invariant c.Valid() && !c.failed && c.delivered == out && err.None?
      invariant old(c.conn.conn.errors) <= c.conn.conn.errors
      invariant Promised(c, messages) && |out| >= Positive(sizes[..k])
    {
      var p := new byte[sizes[k]];
      var n;
      n, err := ReadPromised(c, p, messages);
      if err.Some? {
        WholePrefix(messages, c.accepted);
        return;
      }
      out := out + p[..n];
      PositiveNext(sizes, k);
    }
    c.Guarantee();
    assert sizes[..|sizes|] == sizes;
  }

  /** Nothing is promised at no cost: the empty promise always holds. */
  lemma NothingPromised(c: FramedConn)
    requires c.Valid()
    ensures Promised(c, [])
  {
  }
}
