/**
 * The text `generate_config` of main.py writes to `variables.tf`: an f-string
 * with five Terraform `variable` declarations taken from a ConfigRequest.
 * String fields are put between double quotes as they are, with no escaping;
 * integer fields are written in decimal, as Python's `str(int)` writes them.
 *
 * The template's lines are indented by twelve spaces and it starts right after
 * the opening triple quote, so the text begins with a newline and ends with the
 * twelve spaces before the closing triple quote.
 *
 * ReadVariables is a reader for exactly this layout; the round trip
 * ReadVariables(Render(c)) == Some(c) holds whenever no string field holds a
 * double quote, and QuoteBreaksRendering shows that with one it does not.
 * Conversely, every text the reader accepts is such a rendering (ReadRendersBack).
 */
module Variables {
  import opened Wrappers

  /** The request body of `/generate`. */
  datatype ConfigRequest = ConfigRequest(
    postgresVersion: string,
    instanceType: string,
    numReplicas: int,
    maxConnections: int,
    sharedBuffers: string)

  /** The twelve spaces that indent each line of the template. */
  const Indent: string := "            "

  predicate IsDigit(c: char) {
    '0' <= c <= '9'
  }

  predicate AllDigits(s: string) {
    forall i :: 0 <= i < |s| ==> IsDigit(s[i])
  }

  /** Decimal digits without a leading zero, except for `0` itself. */
  predicate IsCanonicalDecimal(s: string) {
    |s| >= 1 && AllDigits(s) && (s[0] == '0' ==> |s| == 1)
  }

  function DigitChar(d: nat): (c: char)
    requires d < 10
    ensures IsDigit(c)
  {
    (d + '0' as int) as char
  }

  function DigitValue(c: char): (d: nat)
    requires IsDigit(c)
    ensures d < 10
  {
    (c as int - '0' as int) as nat
  }

  /** The decimal digits of `n`, most significant first. */
  function NatToDecimal(n: nat): (s: string)
    ensures IsCanonicalDecimal(s)
  {
    if n < 10 then [DigitChar(n)]
    else
      var s := NatToDecimal(n / 10) + [DigitChar(n % 10)];
      assert s[0] == NatToDecimal(n / 10)[0];
      s
  }

  /** The number a string of decimal digits denotes. */
  function DecimalValue(s: string): nat
    requires AllDigits(s)
  {
    if s == [] then 0 else DecimalValue(s[..|s| - 1]) * 10 + DigitValue(s[|s| - 1])
  }

  /** Reading back the digits of `n` gives `n`. */
  lemma {:induction false} DecimalRoundTrip(n: nat)
    ensures DecimalValue(NatToDecimal(n)) == n
  {
    if n >= 10 {
      var s := NatToDecimal(n);
      assert s[..|s| - 1] == NatToDecimal(n / 10);
      DecimalRoundTrip(n / 10);
    }
  }

  /** Only `0` denotes zero among canonical decimals, and a longer one denotes at least 10. */
  lemma {:induction false} CanonicalDecimalSize(s: string)
    requires IsCanonicalDecimal(s)
    ensures |s| > 1 ==> DecimalValue(s) >= 10
    ensures DecimalValue(s) == 0 ==> s == "0"
    decreases |s|
  {
    if |s| > 1 {
      var p := s[..|s| - 1];
      assert p[0] == s[0];
      CanonicalDecimalSize(p);
    }
  }

  /** A canonical decimal is the decimal of the number it denotes. */
  lemma {:induction false} CanonicalDecimalRoundTrip(s: string)
    requires IsCanonicalDecimal(s)
    ensures NatToDecimal(DecimalValue(s)) == s
    decreases |s|
  {
    var n := DecimalValue(s);
    if |s| == 1 {
      assert DigitChar(DigitValue(s[0])) == s[0];
    } else {
      var p := s[..|s| - 1];
      assert p[0] == s[0];
      CanonicalDecimalSize(p);
      CanonicalDecimalRoundTrip(p);
      assert n / 10 == DecimalValue(p);
      assert n % 10 == DigitValue(s[|s| - 1]);
      assert DigitChar(DigitValue(s[|s| - 1])) == s[|s| - 1];
      assert s == p + [s[|s| - 1]];
    }
  }

  /**
   * Python's `str(i)` for an integer: a minus sign exactly when `i` is negative,
   * then the digits of its magnitude without leading zeros.
   */
  function IntToDecimal(i: int): (r: string)
    ensures i < 0 <==> (r != [] && r[0] == '-')
    ensures if i < 0 then IsCanonicalDecimal(r[1..]) else IsCanonicalDecimal(r)
  {
    if i < 0 then "-" + NatToDecimal(-i) else NatToDecimal(i)
  }

  /** The integer a `str(int)` text denotes; None for any other text. */
  function ParseInt(s: string): Option<int> {
    if s != [] && s[0] == '-' then
      if IsCanonicalDecimal(s[1..]) && DecimalValue(s[1..]) > 0 then Some(0 - DecimalValue(s[1..])) else None
    else if IsCanonicalDecimal(s) then Some(DecimalValue(s))
    else None
  }

  /** Reading back `str(i)` gives `i`. */
  lemma IntRoundTrip(i: int)
    ensures ParseInt(IntToDecimal(i)) == Some(i)
  {
    if i < 0 {
      NegativeRoundTrip(i);
    } else {
      DecimalRoundTrip(i);
    }
  }

  lemma NegativeRoundTrip(i: int)
    requires i < 0
    ensures ParseInt(IntToDecimal(i)) == Some(i)
  {
    var d := NatToDecimal(-i);
    var s := IntToDecimal(i);
    assert s == "-" + d;
    assert s[1..] == d;
    DecimalRoundTrip(-i);
    assert DecimalValue(d) > 0;
  }

  /** ParseInt accepts exactly the texts `str(int)` writes. */
  lemma ParseIntOnlyDecimals(s: string, i: int)
    requires ParseInt(s) == Some(i)
    ensures IntToDecimal(i) == s
  {
    if s != [] && s[0] == '-' {
      CanonicalDecimalRoundTrip(s[1..]);
      assert s == "-" + s[1..];
    } else {
      CanonicalDecimalRoundTrip(s);
    }
  }

  /** `str(int)` never writes a space or a double quote. */
  lemma IntToDecimalChars(i: int)
    ensures ' ' !in IntToDecimal(i) && '"' !in IntToDecimal(i)
  {
    var d := NatToDecimal(if i < 0 then -i else i);
    assert forall k :: 0 <= k < |d| ==> IsDigit(d[k]);
  }

  function Quote(s: string): string {
    "\"" + s + "\""
  }

  /** The start of a template line, up to the value of variable `name`. */
  function Head(name: string): string {
    Indent + "variable \"" + name + "\" { default = "
  }

  /** One line `variable "<name>" { default = <value> }` of the template. */
  function Declaration(name: string, value: string): string {
    Head(name) + value + " }\n"
  }

  /** The text of the f-string in `generate_config`. */
  function Render(c: ConfigRequest): string {
    "\n"
    + (Declaration("postgres_version", Quote(c.postgresVersion))
    + (Declaration("instance_type", Quote(c.instanceType))
    + (Declaration("num_replicas", IntToDecimal(c.numReplicas))
    + (Declaration("max_connections", IntToDecimal(c.maxConnections))
    + (Declaration("shared_buffers", Quote(c.sharedBuffers))
    + Indent)))))
  }

  /** The rest of `s` after the literal `lit`, if `s` starts with it. */
  function Expect(lit: string, s: string): (r: Option<string>)
    ensures r.Some? <==> lit <= s
    ensures r.Some? ==> s == lit + r.value
  {
    if lit <= s then Some(s[|lit|..]) else None
  }

  /** `s` cut before its first `stop`: the longest prefix without `stop`, and the rest. */
  function SplitAt(s: string, stop: char): (r: (string, string))
    ensures r.0 + r.1 == s
    ensures stop !in r.0
    ensures r.1 == [] || r.1[0] == stop
  {
    if s == [] || s[0] == stop then ([], s)
    else
      var (v, w) := SplitAt(s[1..], stop);
      assert [s[0]] + v + w == s;
      ([s[0]] + v, w)
  }

  /** The cut is determined by its properties. */
  lemma {:induction false} SplitAtUnique(v: string, w: string, stop: char)
    requires stop !in v
    requires w == [] || w[0] == stop
    ensures SplitAt(v + w, stop) == (v, w)
    decreases |v|
  {
    if v == [] {
      assert v + w == w;
    } else {
      assert (v + w)[1..] == v[1..] + w;
      SplitAtUnique(v[1..], w, stop);
      assert [v[0]] + v[1..] == v;
    }
  }

  /** Reads one declaration named `name`: its value text (without the quotes when `quoted`) and the rest. */
  function ReadDeclaration(name: string, quoted: bool, s: string): Option<(string, string)> {
    var t :- Expect(Head(name), s);
    if quoted then
      var u :- Expect("\"", t);
      var cut := SplitAt(u, '"');
      var rest :- Expect("\" }\n", cut.1);
      Some((cut.0, rest))
    else
      var cut := SplitAt(t, ' ');
      var rest :- Expect(" }\n", cut.1);
      Some((cut.0, rest))
  }

  /** Reads a variables text of the template's layout back into a request. */
  function ReadVariables(text: string): Option<ConfigRequest> {
    var t0 :- Expect("\n", text);
    var d1 :- ReadDeclaration("postgres_version", true, t0);
    var d2 :- ReadDeclaration("instance_type", true, d1.1);
    ReadCounts(d1.0, d2.0, d2.1)
  }

  /** The rest of a variables text after its two leading string declarations. */
  function ReadCounts(version: string, instance: string, t: string): Option<ConfigRequest> {
    var d3 :- ReadDeclaration("num_replicas", false, t);
    var replicas :- ParseInt(d3.0);
    var d4 :- ReadDeclaration("max_connections", false, d3.1);
    var connections :- ParseInt(d4.0);
    ReadLast(version, instance, replicas, connections, d4.1)
  }

  /** The last declaration of a variables text and the closing indentation. */
  function ReadLast(version: string, instance: string, replicas: int, connections: int, t: string): Option<ConfigRequest> {
    var d5 :- ReadDeclaration("shared_buffers", true, t);
    if d5.1 == Indent then Some(ConfigRequest(version, instance, replicas, connections, d5.0)) else None
  }

  lemma ReadQuotedDeclaration(name: string, v: string, rest: string)
    requires '"' !in v
    ensures ReadDeclaration(name, true, Declaration(name, Quote(v)) + rest) == Some((v, rest))
  {
    var head := Head(name);
    var tail := "\" }\n" + rest;
    assert Declaration(name, Quote(v)) + rest == head + ("\"" + (v + tail));
    SplitAtUnique(v, tail, '"');
    assert Expect("\" }\n", tail) == Some(rest);
  }

  lemma ReadIntDeclaration(name: string, i: int, rest: string)
    ensures ReadDeclaration(name, false, Declaration(name, IntToDecimal(i)) + rest) == Some((IntToDecimal(i), rest))
  {
    var v := IntToDecimal(i);
    var head := Head(name);
    var tail := " }\n" + rest;
    assert Declaration(name, v) + rest == head + (v + tail);
    IntToDecimalChars(i);
    SplitAtUnique(v, tail, ' ');
    assert Expect(" }\n", tail) == Some(rest);
  }

  /**
   * The rendered text holds the five names in the source's order with the three
   * string values verbatim between quotes and the two integers in decimal: reading
   * it back gives the request, as long as no string value holds a double quote.
   */
  lemma RenderRoundTrip(c: ConfigRequest)
    requires '"' !in c.postgresVersion && '"' !in c.instanceType && '"' !in c.sharedBuffers
    ensures ReadVariables(Render(c)) == Some(c)
  {
    var r5 := Declaration("shared_buffers", Quote(c.sharedBuffers)) + Indent;
    var r4 := Declaration("max_connections", IntToDecimal(c.maxConnections)) + r5;
    var r3 := Declaration("num_replicas", IntToDecimal(c.numReplicas)) + r4;
    var r2 := Declaration("instance_type", Quote(c.instanceType)) + r3;
    var r1 := Declaration("postgres_version", Quote(c.postgresVersion)) + r2;
    assert Render(c) == "\n" + r1;
    ReadQuotedDeclaration("postgres_version", c.postgresVersion, r2);
    ReadQuotedDeclaration("instance_type", c.instanceType, r3);
    ReadIntDeclaration("num_replicas", c.numReplicas, r4);
    IntRoundTrip(c.numReplicas);
    ReadIntDeclaration("max_connections", c.maxConnections, r5);
    IntRoundTrip(c.maxConnections);
    ReadQuotedDeclaration("shared_buffers", c.sharedBuffers, Indent);
  }

  /**
   * Reading is also a right inverse: whatever text the reader accepts is the
   * rendering of the request it returns, and that request holds no double quote
   * in its string fields. With RenderRoundTrip, ReadVariables(t) == Some(c)
   * exactly when t == Render(c) for a quote-free c.
   */
  lemma ReadRendersBack(text: string, c: ConfigRequest)
    requires ReadVariables(text) == Some(c)
    ensures Render(c) == text
    ensures '"' !in c.postgresVersion && '"' !in c.instanceType && '"' !in c.sharedBuffers
  {
    var t0 := Expect("\n", text).value;
    var d1 := ReadDeclaration("postgres_version", true, t0).value;
    var d2 := ReadDeclaration("instance_type", true, d1.1).value;
    ReadDeclarationInverse("postgres_version", true, t0);
    ReadDeclarationInverse("instance_type", true, d1.1);
    ReadCountsInverse(d1.0, d2.0, d2.1, c);
  }

  /** What ReadCounts accepts is the last three declarations of the request it returns. */
  lemma ReadCountsInverse(version: string, instance: string, t: string, c: ConfigRequest)
    requires ReadCounts(version, instance, t) == Some(c)
    ensures c.postgresVersion == version && c.instanceType == instance && '"' !in c.sharedBuffers
    ensures t == Declaration("num_replicas", IntToDecimal(c.numReplicas))
               + (Declaration("max_connections", IntToDecimal(c.maxConnections))
               + (Declaration("shared_buffers", Quote(c.sharedBuffers)) + Indent))
  {
    var d3 := ReadDeclaration("num_replicas", false, t).value;
    var d4 := ReadDeclaration("max_connections", false, d3.1).value;
    ReadDeclarationInverse("num_replicas", false, t);
    ReadDeclarationInverse("max_connections", false, d3.1);
    ParseIntOnlyDecimals(d3.0, c.numReplicas);
    ParseIntOnlyDecimals(d4.0, c.maxConnections);
    ReadLastInverse(version, instance, c.numReplicas, c.maxConnections, d4.1, c);
  }

  /** What ReadLast accepts is the `shared_buffers` declaration and the closing indentation. */
  lemma ReadLastInverse(version: string, instance: string, replicas: int, connections: int, t: string, c: ConfigRequest)
    requires ReadLast(version, instance, replicas, connections, t) == Some(c)
    ensures c == ConfigRequest(version, instance, replicas, connections, c.sharedBuffers)
    ensures '"' !in c.sharedBuffers
    ensures t == Declaration("shared_buffers", Quote(c.sharedBuffers)) + Indent
  {
    ReadDeclarationInverse("shared_buffers", true, t);
  }

  /** A declaration the reader accepts is the template line of the value it returns, then the rest. */
  lemma ReadDeclarationInverse(name: string, quoted: bool, s: string)
    requires ReadDeclaration(name, quoted, s).Some?
    ensures var d := ReadDeclaration(name, quoted, s).value;
            s == Declaration(name, if quoted then Quote(d.0) else d.0) + d.1
    ensures quoted ==> '"' !in ReadDeclaration(name, quoted, s).value.0
  {
    var t := Expect(Head(name), s).value;
    if quoted {
      var u := Expect("\"", t).value;
      var cut := SplitAt(u, '"');
      var rest := Expect("\" }\n", cut.1).value;
      assert "\" }\n" == "\"" + " }\n";
      QuotedLine(Head(name), "\"", cut.0, " }\n", rest);
    } else {
      var cut := SplitAt(t, ' ');
      var rest := Expect(" }\n", cut.1).value;
      BareLine(Head(name), cut.0, " }\n", rest);
    }
  }

  /** Regrouping of a quoted template line followed by the rest of the text. */
  lemma QuotedLine(h: string, q: string, v: string, e: string, rest: string)
    ensures h + (q + (v + ((q + e) + rest))) == h + ((q + v) + q) + e + rest
  {
  }

  /** Regrouping of a bare template line followed by the rest of the text. */
  lemma BareLine(h: string, v: string, e: string, rest: string)
    ensures h + (v + (e + rest)) == h + v + e + rest
  {
  }

  /** The template text between the values of `postgres_version` and `instance_type`. */
  const BetweenFirstFields: string := "\"" + " }\n" + Head("instance_type") + "\""

  /**
   * Without escaping, a double quote in a value lets one field's text stand for
   * the next: moving the text between two quoted fields across their boundary
   * gives a different request with the same rendering.
   */
  lemma QuoteBreaksRendering(x: string, y: string, z: string, replicas: int, connections: int, buffers: string)
    ensures var c1 := ConfigRequest(x + BetweenFirstFields + y, z, replicas, connections, buffers);
            var c2 := ConfigRequest(x, y + BetweenFirstFields + z, replicas, connections, buffers);
            c1 != c2 && Render(c1) == Render(c2)
  {
    var mid := BetweenFirstFields;
    var c1 := ConfigRequest(x + mid + y, z, replicas, connections, buffers);
    var c2 := ConfigRequest(x, y + mid + z, replicas, connections, buffers);
    RenderAroundFirstFields(c1);
    RenderAroundFirstFields(c2);
    var head, tail := "\n" + Head("postgres_version") + "\"", AfterFirstFields(c1);
    assert AfterFirstFields(c2) == tail;
    Regroup(head, x, mid, y, z, tail);
    assert |c1.postgresVersion| != |c2.postgresVersion|;
  }

  /** The template text after the value of `instance_type`. */
  function AfterFirstFields(c: ConfigRequest): string {
    "\"" + " }\n"
    + (Declaration("num_replicas", IntToDecimal(c.numReplicas))
    + (Declaration("max_connections", IntToDecimal(c.maxConnections))
    + (Declaration("shared_buffers", Quote(c.sharedBuffers))
    + Indent)))
  }

  /** Render, regrouped so that the first two values and the text between them stand apart. */
  lemma RenderAroundFirstFields(c: ConfigRequest)
    ensures Render(c)
         == "\n" + Head("postgres_version") + "\""
          + c.postgresVersion + BetweenFirstFields + c.instanceType + AfterFirstFields(c)
  {
    var r := Declaration("num_replicas", IntToDecimal(c.numReplicas))
      + (Declaration("max_connections", IntToDecimal(c.maxConnections))
      + (Declaration("shared_buffers", Quote(c.sharedBuffers))
      + Indent));
    Shape("\n", Head("postgres_version"), "\"", c.postgresVersion, " }\n", Head("instance_type"), c.instanceType, r);
  }

  /** Regrouping of Render's nested concatenation around the first two quoted values. */
  lemma Shape(nl: string, h1: string, q: string, v1: string, e: string, h2: string, v2: string, r: string)
    ensures nl + (((h1 + ((q + v1) + q)) + e) + (((h2 + ((q + v2) + q)) + e) + r))
         == nl + h1 + q + v1 + (q + e + h2 + q) + v2 + (q + e + r)
  {
  }

  /** Moving the middle text `m` from after `y` to before it, by associativity. */
  lemma Regroup(h: string, x: string, m: string, y: string, z: string, t: string)
    ensures h + (x + m + y) + m + z + t == h + x + m + (y + m + z) + t
  {
  }
}
