/** web/metrics/metrics.go: how a label set is printed, with an exact inverse. */
module MetricLabels {
  import opened Octets
  import opened Numerals

  datatype Key = Key(verb: string, route: string, status: int)

  const QUOTE := '\"'
  const BACKSLASH := '\\'
  const NEWLINE := '\n'

  // ---------------------------------------------------------------- quote

  /** strings.ReplaceAll with a one-character pattern. */
  function ReplaceAll(s: string, c: char, replacement: string): string {
    if s == "" then "" else (if s[0] == c then replacement else [s[0]]) + ReplaceAll(s[1..], c, replacement)
  }

  /** quote: three passes, backslashes first. */
  function Quote(value: string): string {
    var a := ReplaceAll(value, BACKSLASH, "\\\\");
    var b := ReplaceAll(a, NEWLINE, "\\n");
    var c := ReplaceAll(b, QUOTE, "\\\"");
    "\"" + c + "\""
  }

  /** The escape of one character. */
  function EscapeChar(c: char): string {
    if c == BACKSLASH then "\\\\" else if c == NEWLINE then "\\n" else if c == QUOTE then "\\\"" else [c]
  }

  /** One pass over the value. */
  function Escape(s: string): string {
    if s == "" then "" else EscapeChar(s[0]) + Escape(s[1..])
  }

  lemma {:induction false} ReplaceConcat(a: string, b: string, c: char, replacement: string)
    ensures ReplaceAll(a + b, c, replacement) == ReplaceAll(a, c, replacement) + ReplaceAll(b, c, replacement)
  {
    if a == "" {
      assert a + b == b;
    } else {
      assert (a + b)[1..] == a[1..] + b;
      ReplaceConcat(a[1..], b, c, replacement);
    }
  }

  lemma ReplaceOne(x: char, c: char, replacement: string)
    ensures ReplaceAll([x], c, replacement) == if x == c then replacement else [x]
  {
    assert [x][1..] == "";
    assert ReplaceAll("", c, replacement) == "";
  }

  lemma ReplaceTwo(x: char, y: char, c: char, replacement: string)
    requires x != c && y != c
    ensures ReplaceAll([x, y], c, replacement) == [x, y]
  {
    assert [x, y][1..] == [y];
    ReplaceOne(y, c, replacement);
  }

  /** What the three passes do to a single character. */
  lemma PassesOnOne(x: char)
    ensures ReplaceAll(ReplaceAll(ReplaceAll([x], BACKSLASH, "\\\\"), NEWLINE, "\\n"), QUOTE, "\\\"") == EscapeChar(x)
  {
    ReplaceOne(x, BACKSLASH, "\\\\");
    ReplaceOne(x, NEWLINE, "\\n");
    ReplaceOne(x, QUOTE, "\\\"");
    ReplaceTwo(BACKSLASH, BACKSLASH, NEWLINE, "\\n");
    ReplaceTwo(BACKSLASH, BACKSLASH, QUOTE, "\\\"");
    ReplaceTwo(BACKSLASH, 'n', QUOTE, "\\\"");
  }

  /** The three passes are one pass: no pass touches what an earlier one inserted. */
  lemma {:induction false} ThreePassesAreOne(s: string)
    ensures Quote(s) == "\"" + Escape(s) + "\""
    ensures ReplaceAll(ReplaceAll(ReplaceAll(s, BACKSLASH, "\\\\"), NEWLINE, "\\n"), QUOTE, "\\\"") == Escape(s)
  {
    if s != "" {
      var (x, rest) := ([s[0]], s[1..]);
      assert s == x + rest;
      ThreePassesAreOne(rest);
      PassesOnOne(s[0]);
      ReplaceConcat(x, rest, BACKSLASH, "\\\\");
      var (x1, r1) := (ReplaceAll(x, BACKSLASH, "\\\\"), ReplaceAll(rest, BACKSLASH, "\\\\"));
      ReplaceConcat(x1, r1, NEWLINE, "\\n");
      ReplaceConcat(ReplaceAll(x1, NEWLINE, "\\n"), ReplaceAll(r1, NEWLINE, "\\n"), QUOTE, "\\\"");
    }
  }

  /** The three escapes, and nothing else is changed. */
  lemma Escapes(s: string)
    ensures Escape("\\") == "\\\\" && Escape("\n") == "\\n" && Escape("\"") == "\\\""
    ensures (forall i :: 0 <= i < |s| ==> s[i] != '\\' && s[i] != '\n' && s[i] != '\"') ==> Escape(s) == s
  {
    if forall i :: 0 <= i < |s| ==> s[i] != '\\' && s[i] != '\n' && s[i] != '\"' {
      PlainUnescaped(s);
    }
  }

  // ---------------------------------------------------------------- reading a quoted value back

  /** Reads up to the first quote that is not escaped; gives the value and what follows the quote. */
  function ReadQuoted(t: string): Option<(string, string)>
    decreases |t|
  {
    if t == "" then None
    else if t[0] == QUOTE then Some(("", t[1..]))
    else if t[0] != BACKSLASH then Prepend(t[0], ReadQuoted(t[1..]))
    else if |t| < 2 then None
    else if t[1] == 'n' then Prepend(NEWLINE, ReadQuoted(t[2..]))
    else if t[1] == BACKSLASH || t[1] == QUOTE then Prepend(t[1], ReadQuoted(t[2..]))
    else None
  }

  function Prepend(c: char, r: Option<(string, string)>): Option<(string, string)> {
    if r.None? then None else Some(([c] + r.value.0, r.value.1))
  }

  lemma ReadEscaped(c: char, t: string)
    ensures ReadQuoted(EscapeChar(c) + t) == Prepend(c, ReadQuoted(t))
  {
    assert (EscapeChar(c) + t)[|EscapeChar(c)|..] == t;
  }

  /** An escaped value ends at its own closing quote, whatever follows, and reads back as itself. */
  lemma {:induction false} ReadBack(s: string, rest: string)
    ensures ReadQuoted(Escape(s) + "\"" + rest) == Some((s, rest))
  {
    if s == "" {
      assert (Escape(s) + "\"" + rest)[1..] == rest;
    } else {
      ReadBack(s[1..], rest);
      var tail := Escape(s[1..]) + "\"" + rest;
      assert Escape(s) + "\"" + rest == EscapeChar(s[0]) + tail;
      ReadEscaped(s[0], tail);
      assert s == [s[0]] + s[1..];
    }
  }

  // ---------------------------------------------------------------- status numbers

  /** strconv.Itoa */
  function Itoa(n: int): string {
    if n < 0 then "-" + Decimal(-n) else Decimal(n)
  }

  function Atoi(s: string): int {
    if s != "" && s[0] == '-' then -Number(s[1..]) else Number(s)
  }

  predicate Plain(s: string) {
    forall i :: 0 <= i < |s| ==> s[i] != QUOTE && s[i] != BACKSLASH && s[i] != NEWLINE
  }

  lemma AtoiOfItoa(n: int)
    ensures Atoi(Itoa(n)) == n && Plain(Itoa(n))
  {
    NumberOfDecimal(if n < 0 then -n else n);
    assert IsDigit(Itoa(if n < 0 then -n else n)[0]);
    if n < 0 {
      assert ("-" + Decimal(-n))[1..] == Decimal(-n);
    }
  }

  lemma {:induction false} PlainUnescaped(s: string)
    requires Plain(s)
    ensures Escape(s) == s
  {
    if s != "" {
      PlainUnescaped(s[1..]);
    }
  }

  // ---------------------------------------------------------------- series text

  /** The %q verb on a string of digits and a sign. */
  function PlainQuote(s: string): string {
    "\"" + s + "\""
  }

  /** key.text */
  function Text(k: Key): string {
    "{method=" + Quote(k.verb) + (",route=" + Quote(k.route) + (",status=" + PlainQuote(Itoa(k.status)))) + "}"
  }

  function TrimSuffix(s: string, suffix: string): string {
    if |suffix| <= |s| && s[|s| - |suffix|..] == suffix then s[..|s| - |suffix|] else s
  }

  /** key.textWithBucket */
  function TextWithBucket(k: Key, bucket: string): string {
    TrimSuffix(Text(k), "}") + ",le=" + Quote(bucket) + "}"
  }

  /** What follows `prefix` in t. */
  function After(t: string, prefix: string): Option<string> {
    if prefix <= t then Some(t[|prefix|..]) else None
  }

  /** A quoted value behind `prefix`, and the rest. */
  function Field(t: string, prefix: string): Option<(string, string)> {
    var rest := After(t, prefix + "\"");
    if rest.None? then None else ReadQuoted(rest.value)
  }

  /** Reads a label set, with or without a bucket. */
  function Parse(t: string): Option<(Key, Option<string>)> {
    var m := Field(t, "{method=");
    if m.None? then None else
    var r := Field(m.value.1, ",route=");
    if r.None? then None else
    var s := Field(r.value.1, ",status=");
    if s.None? then None else
    var key := Key(m.value.0, r.value.0, Atoi(s.value.0));
    if s.value.1 == "}" then Some((key, None)) else
    var b := Field(s.value.1, ",le=");
    if b.None? || b.value.1 != "}" then None else Some((key, Some(b.value.0)))
  }

  lemma FieldBack(prefix: string, value: string, rest: string)
    ensures Field(prefix + Quote(value) + rest, prefix) == Some((value, rest))
  {
    ThreePassesAreOne(value);
    var tail := Escape(value) + "\"" + rest;
    assert prefix + Quote(value) + rest == (prefix + "\"") + tail;
    assert ((prefix + "\"") + tail)[|prefix| + 1..] == tail;
    ReadBack(value, rest);
  }

  /** The label set up to its closing brace. */
  function Open(k: Key): string {
    "{method=" + Quote(k.verb) + (",route=" + Quote(k.route) + (",status=" + Quote(Itoa(k.status))))
  }

  lemma StatusQuoted(n: int)
    ensures Quote(Itoa(n)) == PlainQuote(Itoa(n))
  {
    AtoiOfItoa(n);
    PlainUnescaped(Itoa(n));
    ThreePassesAreOne(Itoa(n));
  }

  lemma TrimBrace(s: string)
    ensures TrimSuffix(s + "}", "}") == s
  {
    assert (s + "}")[|s|..] == "}";
  }

  lemma TextIsOpen(k: Key)
    ensures Text(k) == Open(k) + "}" && TrimSuffix(Text(k), "}") == Open(k)
  {
    StatusQuoted(k.status);
    TrimBrace(Open(k));
  }

  lemma ParseOpen(k: Key, rest: string)
    requires rest == "}" || Field(rest, ",le=").Some?
    ensures Parse(Open(k) + rest) ==
            if rest == "}" then Some((k, None))
            else var b := Field(rest, ",le="); if b.value.1 != "}" then None else Some((k, Some(b.value.0)))
  {
    var status := Itoa(k.status);
    var s2 := ",status=" + Quote(status) + rest;
    var s1 := ",route=" + Quote(k.route) + s2;
    assert Open(k) + rest == "{method=" + Quote(k.verb) + s1;
    FieldBack("{method=", k.verb, s1);
    FieldBack(",route=", k.route, s2);
    FieldBack(",status=", status, rest);
    AtoiOfItoa(k.status);
  }

  /** Printing loses nothing: the label set and the bucket can be read back from the text. */
  /** The text of labels that need no escaping. */
  lemma PlainText(k: Key, bucket: string)
    requires Plain(k.verb) && Plain(k.route) && Plain(bucket) && k.status >= 0
    ensures var labels := "{method=" + ("\"" + k.verb + "\"") +
                          (",route=" + ("\"" + k.route + "\"") + (",status=" + ("\"" + Decimal(k.status) + "\"")));
            && Text(k) == labels + "}"
            && TextWithBucket(k, bucket) == labels + ",le=" + ("\"" + bucket + "\"") + "}"
  {
    PlainQuoted(k.verb);
    PlainQuoted(k.route);
    PlainQuoted(bucket);
    StatusQuoted(k.status);
    TextIsOpen(k);
  }

  lemma PlainQuoted(s: string)
    requires Plain(s)
    ensures Quote(s) == "\"" + s + "\""
  {
    ThreePassesAreOne(s);
    PlainUnescaped(s);
  }

  lemma TextReadsBack(k: Key, bucket: string)
    ensures Parse(Text(k)) == Some((k, None))
    ensures Parse(TextWithBucket(k, bucket)) == Some((k, Some(bucket)))
  {
    TextIsOpen(k);
    ParseOpen(k, "}");
    BucketReadsBack(k, bucket);
  }

  lemma BucketReadsBack(k: Key, bucket: string)
    ensures Parse(TextWithBucket(k, bucket)) == Some((k, Some(bucket)))
  {
    TextIsOpen(k);
    FieldBack(",le=", bucket, "}");
    Assoc(Open(k), ",le=", Quote(bucket));
    Assoc(Open(k), ",le=" + Quote(bucket), "}");
    ParseOpen(k, ",le=" + Quote(bucket) + "}");
  }

  /** Distinct label sets, and distinct buckets of one, print as distinct series. */
  lemma DistinctSeries(k: Key, l: Key, b: string, c: string)
    ensures Text(k) == Text(l) <==> k == l
    ensures TextWithBucket(k, b) == TextWithBucket(l, c) <==> k == l && b == c
    ensures Text(k) != TextWithBucket(l, c)
  {
    TextReadsBack(k, b);
    TextReadsBack(l, c);
  }

  predicate OneLine(s: string) {
    NEWLINE !in s
  }

  lemma OneLineConcat(a: string, b: string)
    ensures OneLine(a + b) <==> OneLine(a) && OneLine(b)
  {
  }

  lemma {:induction false} EscapeOneLine(s: string)
    ensures OneLine(Escape(s))
  {
    if s != "" {
      EscapeOneLine(s[1..]);
      OneLineConcat(EscapeChar(s[0]), Escape(s[1..]));
    }
  }

  lemma QuoteOneLine(s: string)
    ensures OneLine(Quote(s))
  {
    ThreePassesAreOne(s);
    EscapeOneLine(s);
  }

  lemma OpenOneLine(k: Key)
    ensures OneLine(Open(k))
  {
    var (m, r, s) := (Quote(k.verb), Quote(k.route), Quote(Itoa(k.status)));
    QuoteOneLine(k.verb);
    QuoteOneLine(k.route);
    QuoteOneLine(Itoa(k.status));
    OneLineConcat(",status=", s);
    OneLineConcat(",route=", r);
    OneLineConcat(",route=" + r, ",status=" + s);
    OneLineConcat("{method=", m);
    OneLineConcat("{method=" + m, ",route=" + r + (",status=" + s));
  }

  /** A printed label set never breaks the line it stands on. */
  lemma TextOneLine(k: Key, bucket: string)
    ensures OneLine(Text(k)) && OneLine(TextWithBucket(k, bucket))
  {
    OpenOneLine(k);
    TextIsOpen(k);
    QuoteOneLine(bucket);
    OneLineConcat(Open(k), "}");
    OneLineConcat(Open(k), ",le=");
    OneLineConcat(Open(k) + ",le=", Quote(bucket));
    OneLineConcat(Open(k) + ",le=" + Quote(bucket), "}");
  }
}
