/**
 * The cleaning expression `remove_ansi_escape_codes(stdout).strip().split('\n')`
 * that the init, plan and apply handlers of main.py apply to the tool's output.
 *
 * Python's `str.strip()` removes the characters for which `str.isspace()` holds,
 * a Unicode-wide set; every operation here takes that set as a parameter `ws`,
 * and PythonSpace is the set as Python defines it. `str.split('\n')` splits at
 * every newline, so a text with `k` newlines gives `k + 1` pieces and the empty
 * text gives `[""]`.
 */
module Cleaning {
  import Ansi

  /** The characters `str.isspace()` accepts: what `str.strip()` removes by default. */
  predicate PythonSpace(c: char) {
    || ('\t' <= c <= '\r')
    || ('\U{1C}' <= c <= ' ')
    || c == '\U{85}'
    || c == '\U{A0}'
    || c == '\U{1680}'
    || ('\U{2000}' <= c <= '\U{200A}')
    || c == '\U{2028}'
    || c == '\U{2029}'
    || c == '\U{202F}'
    || c == '\U{205F}'
    || c == '\U{3000}'
  }

  predicate AllSpace(s: string, ws: char -> bool) {
    forall i :: 0 <= i < |s| ==> ws(s[i])
  }

  /** Neither end of `s` is whitespace. */
  predicate Trimmed(s: string, ws: char -> bool) {
    s == [] || (!ws(s[0]) && !ws(s[|s| - 1]))
  }

  /** `s` without its leading whitespace. */
  function TrimStart(s: string, ws: char -> bool): (r: string)
    ensures |r| <= |s| && r == s[|s| - |r|..]
    ensures AllSpace(s[..|s| - |r|], ws)
    ensures r == [] || !ws(r[0])
  {
    if s != [] && ws(s[0]) then TrimStart(s[1..], ws) else s
  }

  /** `s` without its trailing whitespace. */
  function TrimEnd(s: string, ws: char -> bool): (r: string)
    ensures |r| <= |s| && r == s[..|r|]
    ensures AllSpace(s[|r|..], ws)
    ensures r == [] || !ws(r[|r| - 1])
  {
    if s != [] && ws(s[|s| - 1]) then TrimEnd(s[..|s| - 1], ws) else s
  }

  /**
   * `s.strip()`: the result is `s` less a whitespace prefix and a whitespace
   * suffix, and neither of its ends is whitespace.
   */
  function Strip(s: string, ws: char -> bool): (r: string)
    ensures exists i :: 0 <= i <= |s| - |r| && s[i..i + |r|] == r && AllSpace(s[..i], ws) && AllSpace(s[i + |r|..], ws)
    ensures Trimmed(r, ws)
  {
    var t := TrimStart(s, ws);
    var r := TrimEnd(t, ws);
    var i := |s| - |t|;
    assert s[i..i + |r|] == r;
    assert s[i + |r|..] == t[|r|..];
    assert r != [] ==> r[0] == t[0];
    r
  }

  lemma {:induction false} TrimStartOfSpace(a: string, r: string, ws: char -> bool)
    requires AllSpace(a, ws) && (r == [] || !ws(r[0]))
    ensures TrimStart(a + r, ws) == r
    decreases |a|
  {
    if a == [] {
      assert a + r == r;
    } else {
      assert (a + r)[1..] == a[1..] + r;
      TrimStartOfSpace(a[1..], r, ws);
    }
  }

  lemma {:induction false} TrimEndOfSpace(r: string, b: string, ws: char -> bool)
    requires AllSpace(b, ws) && (r == [] || !ws(r[|r| - 1]))
    ensures TrimEnd(r + b, ws) == r
    decreases |b|
  {
    if b == [] {
      assert r + b == r;
    } else {
      var b' := b[..|b| - 1];
      assert (r + b)[..|r + b| - 1] == r + b';
      TrimEndOfSpace(r, b', ws);
    }
  }

  /** A text made only of whitespace strips to the empty text, and only such a text does. */
  lemma StripEmptyIff(s: string, ws: char -> bool)
    ensures Strip(s, ws) == [] <==> AllSpace(s, ws)
  {
    if AllSpace(s, ws) {
      TrimStartOfSpace(s, [], ws);
      assert s + [] == s;
    }
    if Strip(s, ws) == [] {
      var i :| 0 <= i <= |s| && AllSpace(s[..i], ws) && AllSpace(s[i..], ws);
      assert forall k :: 0 <= k < |s| ==> s[k] == if k < i then s[..i][k] else s[i..][k - i];
    }
  }

  /**
   * Strip is characterised by its contract: whatever the whitespace prefix `a`
   * and suffix `b`, stripping `a + r + b` gives `r` when neither end of `r` is
   * whitespace.
   */
  lemma StripUnique(a: string, r: string, b: string, ws: char -> bool)
    requires AllSpace(a, ws) && AllSpace(b, ws) && Trimmed(r, ws)
    ensures Strip(a + r + b, ws) == r
  {
    if r == [] {
      assert a + r + b == a + b;
      StripEmptyIff(a + b, ws);
    } else {
      assert a + r + b == a + (r + b);
      TrimStartOfSpace(a, r + b, ws);
      TrimEndOfSpace(r, b, ws);
    }
  }

  /** Stripping a stripped text changes nothing. */
  lemma StripIdempotent(s: string, ws: char -> bool)
    ensures Strip(Strip(s, ws), ws) == Strip(s, ws)
  {
    var r := Strip(s, ws);
    assert [] + r + [] == r;
    StripUnique([], r, [], ws);
  }

  /** `s.split(sep)`: the pieces between the separators, never an empty list. */
  function Split(s: string, sep: char): (r: seq<string>)
    ensures |r| >= 1
    ensures forall i :: 0 <= i < |r| ==> sep !in r[i]
    decreases |s|
  {
    if s == [] then [[]]
    else
      var rest := Split(s[1..], sep);
      if s[0] == sep then [[]] + rest
      else [[s[0]] + rest[0]] + rest[1..]
  }

  /** `sep.join(xs)`. */
  function Join(xs: seq<string>, sep: char): string {
    if xs == [] then []
    else if |xs| == 1 then xs[0]
    else xs[0] + [sep] + Join(xs[1..], sep)
  }

  /** Joining the pieces of a split gives the text back. */
  lemma {:induction false} JoinSplit(s: string, sep: char)
    ensures Join(Split(s, sep), sep) == s
    decreases |s|
  {
    if s != [] {
      var rest := Split(s[1..], sep);
      JoinSplit(s[1..], sep);
      if s[0] == sep {
        assert ([[]] + rest)[1..] == rest;
      } else {
        var r := [[s[0]] + rest[0]] + rest[1..];
        if |rest| == 1 {
          assert Join(rest, sep) == rest[0];
        } else {
          assert r[1..] == rest[1..];
          assert Join(rest, sep) == rest[0] + [sep] + Join(rest[1..], sep);
        }
      }
    }
  }

  /** Splitting `x + t` where `x` has no separator extends the first piece of `t`'s split. */
  lemma {:induction false} SplitPrefix(x: string, t: string, sep: char)
    requires sep !in x
    ensures Split(x + t, sep) == [x + Split(t, sep)[0]] + Split(t, sep)[1..]
    decreases |x|
  {
    if x == [] {
      assert x + t == t;
      assert x + Split(t, sep)[0] == Split(t, sep)[0];
      assert [Split(t, sep)[0]] + Split(t, sep)[1..] == Split(t, sep);
    } else {
      assert (x + t)[1..] == x[1..] + t;
      assert x[0] == (x + t)[0];
      SplitPrefix(x[1..], t, sep);
      assert [x[0]] + (x[1..] + Split(t, sep)[0]) == x + Split(t, sep)[0];
    }
  }

  /** Splitting a join of separator-free pieces gives the pieces back. */
  lemma {:induction false} SplitJoin(xs: seq<string>, sep: char)
    requires |xs| >= 1
    requires forall i :: 0 <= i < |xs| ==> sep !in xs[i]
    ensures Split(Join(xs, sep), sep) == xs
  {
    if |xs| == 1 {
      SplitPrefix(xs[0], [], sep);
      assert xs[0] + [] == xs[0];
    } else {
      var j := Join(xs[1..], sep);
      SplitJoin(xs[1..], sep);
      SplitPrefix(xs[0], [sep] + j, sep);
      assert xs[0] + [sep] + j == xs[0] + ([sep] + j);
      assert ([sep] + j)[1..] == j;
      assert Split([sep] + j, sep) == [[]] + Split(j, sep);
      assert xs[0] + [] == xs[0];
      assert xs == [xs[0]] + xs[1..];
    }
  }

  /** A text with `k` separators splits into `k + 1` pieces. */
  lemma {:induction false} SplitCount(s: string, sep: char)
    ensures |Split(s, sep)| == multiset(s)[sep] + 1
    decreases |s|
  {
    if s != [] {
      SplitCount(s[1..], sep);
      assert s == [s[0]] + s[1..];
      assert multiset(s) == multiset([s[0]]) + multiset(s[1..]);
    }
  }

  /**
   * `remove_ansi_escape_codes(stdout).strip().split('\n')`: never empty, no line
   * holds a newline, and the lines joined with newlines are the stripped,
   * sanitised text.
   */
  function Clean(stdout: string, ws: char -> bool): (lines: seq<string>)
    ensures |lines| >= 1
    ensures forall i :: 0 <= i < |lines| ==> '\n' !in lines[i]
    ensures Join(lines, '\n') == Strip(Ansi.Sanitize(stdout), ws)
  {
    var text := Strip(Ansi.Sanitize(stdout), ws);
    JoinSplit(text, '\n');
    Split(text, '\n')
  }

  /** The cleaned output is `[""]` exactly when the sanitised output is all whitespace. */
  lemma CleanSingleEmptyLine(stdout: string, ws: char -> bool)
    ensures Clean(stdout, ws) == [[]] <==> AllSpace(Ansi.Sanitize(stdout), ws)
  {
    var text := Strip(Ansi.Sanitize(stdout), ws);
    StripEmptyIff(Ansi.Sanitize(stdout), ws);
    if Clean(stdout, ws) == [[]] {
      assert Join([[]], '\n') == [];
    }
  }

  /** The cleaned output has one line more than the stripped, sanitised text has newlines. */
  lemma CleanLineCount(stdout: string, ws: char -> bool)
    ensures |Clean(stdout, ws)| == multiset(Strip(Ansi.Sanitize(stdout), ws))['\n'] + 1
  {
    SplitCount(Strip(Ansi.Sanitize(stdout), ws), '\n');
  }

  /** The cleaned lines are the lines of the stripped, sanitised text and nothing else. */
  lemma CleanIsSplitOfText(stdout: string, ws: char -> bool, lines: seq<string>)
    requires |lines| >= 1
    requires forall i :: 0 <= i < |lines| ==> '\n' !in lines[i]
    ensures Clean(stdout, ws) == lines <==> Join(lines, '\n') == Strip(Ansi.Sanitize(stdout), ws)
  {
    if Join(lines, '\n') == Strip(Ansi.Sanitize(stdout), ws) {
      SplitJoin(lines, '\n');
    }
  }

  /** Output `"a\nb\n"` with Python's whitespace cleans to `["a", "b"]`. */
  lemma CleanTwoLines(stdout: string)
    requires stdout == "a\nb\n"
    ensures Clean(stdout, PythonSpace) == ["a", "b"]
  {
    Ansi.NoEscapeUnchanged(stdout);
    var text := stdout[..3];
    assert stdout == [] + text + "\n";
    StripUnique([], text, "\n", PythonSpace);
    SplitTwoLines(text);
  }

  lemma SplitTwoLines(text: string)
    requires text == "a\nb"
    ensures Split(text, '\n') == ["a", "b"]
  {
    var lines: seq<string> := [text[..1], text[2..]];
    assert text[..1] == "a" && text[2..] == "b";
    assert lines == ["a", "b"];
    assert Join(lines, '\n') == text;
    SplitJoin(lines, '\n');
  }
}
