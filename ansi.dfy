/**
 * The output sanitiser `remove_ansi_escape_codes` of main.py: a regular-expression
 * substitution of the empty string for every match of `\x1B\[[0-?9;]*[mK]`.
 *
 * The character class `[0-?9;]` is the range U+0030..U+003F (the digits and
 * `: ; < = > ?`); the extra `9` and `;` already lie in that range. Neither `m`
 * nor `K` lies in it, so after `ESC [` a match takes the longest run of class
 * characters and then needs `m` or `K`: backtracking into the run never helps
 * (BacktrackingNeverHelps proves this against a model of a backtracking engine).
 *
 * The substitution scans left to right; at every position it either removes the
 * match starting there and resumes after it, or keeps one character and resumes
 * at the next. Scan records those decisions as a list of pieces, and Sanitize
 * keeps the characters of the kept pieces, as the substitution does.
 */
module Ansi {
  import opened Wrappers

  /** U+001B, written `\x1B` in the pattern. */
  const ESC: char := '\U{1B}'

  /** A character of the class `[0-?9;]`. */
  predicate IsParam(c: char) {
    '0' <= c <= '?'
  }

  /** A character of the class `[mK]`. */
  predicate IsFinal(c: char) {
    c == 'm' || c == 'K'
  }

  /** The regular language of the pattern: `t` is ESC, `[`, class characters, then `m` or `K`. */
  predicate IsEscapeSequence(t: string) {
    && |t| >= 3
    && t[0] == ESC
    && t[1] == '['
    && (forall i :: 2 <= i < |t| - 1 ==> IsParam(t[i]))
    && IsFinal(t[|t| - 1])
  }

  /** No substring of `s` belongs to the pattern's language. */
  predicate NoEscapeSequenceIn(s: string) {
    forall i, k :: 0 <= i <= k <= |s| ==> !IsEscapeSequence(s[i..k])
  }

  /** Length of the longest prefix of `s` made of class characters. */
  function ParamRun(s: string): (n: nat)
    ensures n <= |s|
    ensures forall i :: 0 <= i < n ==> IsParam(s[i])
    ensures n < |s| ==> !IsParam(s[n])
  {
    if s == [] || !IsParam(s[0]) then 0 else 1 + ParamRun(s[1..])
  }

  /** The match of the pattern anchored at the start of `s`, by its length. */
  function MatchLength(s: string): (r: Option<nat>)
    ensures r.Some? ==> r.value <= |s| && IsEscapeSequence(s[..r.value])
    ensures r.None? ==> forall k :: 0 <= k <= |s| ==> !IsEscapeSequence(s[..k])
  {
    if |s| < 2 || s[0] != ESC || s[1] != '[' then None
    else
      var n := ParamRun(s[2..]);
      if 2 + n < |s| && IsFinal(s[2 + n]) then Some(3 + n) else None
  }

  /** A prefix in the pattern's language is the one anchored match: the match at a position is unique. */
  lemma MatchIsUnique(s: string, k: nat)
    requires k <= |s| && IsEscapeSequence(s[..k])
    ensures MatchLength(s) == Some(k)
  {
  }

  /**
   * How a backtracking engine matches `[0-?9;]*[mK]` against `t`: the star holds
   * the first `k` characters; when the next one is not `m` or `K` it gives one back
   * and tries again, until it holds none.
   */
  function Backtrack(t: string, k: nat): Option<nat>
    requires k <= |t|
    decreases k
  {
    if k < |t| && IsFinal(t[k]) then Some(k + 1)
    else if k == 0 then None
    else Backtrack(t, k - 1)
  }

  /** The anchored match a backtracking engine finds: the star starts from the greedy run. */
  function EngineMatchLength(s: string): Option<nat> {
    if |s| < 2 || s[0] != ESC || s[1] != '[' then None
    else
      match Backtrack(s[2..], ParamRun(s[2..]))
      case Some(m) => Some(2 + m)
      case None => None
  }

  /** Giving back characters of the greedy run never finds `m` or `K`. */
  lemma {:induction false} GiveBackFails(t: string, k: nat)
    requires k < ParamRun(t)
    ensures Backtrack(t, k) == None
  {
    assert IsParam(t[k]);
    if k > 0 {
      GiveBackFails(t, k - 1);
    }
  }

  /** The greedy anchored match is the match a backtracking engine finds. */
  lemma BacktrackingNeverHelps(s: string)
    ensures EngineMatchLength(s) == MatchLength(s)
  {
    if |s| >= 2 && s[0] == ESC && s[1] == '[' {
      var t := s[2..];
      var n := ParamRun(t);
      if !(n < |t| && IsFinal(t[n])) && n > 0 {
        GiveBackFails(t, n - 1);
      }
    }
  }

  /** One decision of the left-to-right scan: a character kept, or a match removed. */
  datatype Piece = Kept(c: char) | Removed(span: string)

  function PieceText(p: Piece): string {
    match p
    case Kept(c) => [c]
    case Removed(span) => span
  }

  /** The input text the pieces cover, in order. */
  function Concat(ps: seq<Piece>): string {
    if ps == [] then [] else PieceText(ps[0]) + Concat(ps[1..])
  }

  /** The characters of the kept pieces, in order: what the substitution returns. */
  function Survivors(ps: seq<Piece>): string {
    if ps == [] then []
    else (if ps[0].Kept? then [ps[0].c] else []) + Survivors(ps[1..])
  }

  /** The scan of the substitution: the pieces partition `s` without gap or overlap. */
  function Scan(s: string): (ps: seq<Piece>)
    ensures Concat(ps) == s
    decreases |s|
  {
    if s == [] then []
    else
      match MatchLength(s)
      case Some(n) =>
        var rest := Scan(s[n..]);
        assert ([Removed(s[..n])] + rest)[1..] == rest;
        [Removed(s[..n])] + rest
      case None =>
        var rest := Scan(s[1..]);
        assert ([Kept(s[0])] + rest)[1..] == rest;
        [Kept(s[0])] + rest
  }

  /** `remove_ansi_escape_codes(text)`. */
  function Sanitize(s: string): string {
    Survivors(Scan(s))
  }

  /** Every piece the scan removes is a string of the pattern's language. */
  lemma {:induction false} RemovedAreEscapeSequences(s: string)
    ensures forall i :: 0 <= i < |Scan(s)| && Scan(s)[i].Removed? ==> IsEscapeSequence(Scan(s)[i].span)
    decreases |s|
  {
    if s != [] {
      var ps := Scan(s);
      var m := |PieceText(ps[0])|;
      assert ps == [ps[0]] + Scan(s[m..]);
      RemovedAreEscapeSequences(s[m..]);
      forall i | 0 <= i < |ps| && ps[i].Removed?
        ensures IsEscapeSequence(ps[i].span)
      {
        if i > 0 {
          assert ps[i] == Scan(s[m..])[i - 1];
        }
      }
    }
  }

  /** One step of the substitution: remove the anchored match, or keep one character. */
  lemma SanitizeStep(s: string)
    requires s != []
    ensures MatchLength(s).Some? ==> Sanitize(s) == Sanitize(s[MatchLength(s).value..])
    ensures MatchLength(s).None? ==> Sanitize(s) == [s[0]] + Sanitize(s[1..])
  {
    var ps := Scan(s);
    assert Survivors(ps) == (if ps[0].Kept? then [ps[0].c] else []) + Survivors(ps[1..]);
  }

  /** `a` is obtained from `b` by deleting characters. */
  predicate IsSubsequence(a: string, b: string)
    decreases |b|
  {
    if a == [] then true
    else if b == [] then false
    else (a[0] == b[0] && IsSubsequence(a[1..], b[1..])) || IsSubsequence(a, b[1..])
  }

  lemma {:induction false} SubsequenceOfSuffix(a: string, b: string, k: nat)
    requires k <= |b| && IsSubsequence(a, b[k..])
    ensures IsSubsequence(a, b)
    decreases k
  {
    if k > 0 {
      assert b[1..][k - 1..] == b[k..];
      SubsequenceOfSuffix(a, b[1..], k - 1);
    }
  }

  lemma {:induction false} SubsequenceLength(a: string, b: string)
    requires IsSubsequence(a, b)
    ensures |a| <= |b|
    decreases |b|
  {
    if a != [] {
      if a[0] == b[0] && IsSubsequence(a[1..], b[1..]) {
        SubsequenceLength(a[1..], b[1..]);
      } else {
        SubsequenceLength(a, b[1..]);
      }
    }
  }

  /** The sanitiser only deletes: its result is a subsequence of the input, hence no longer. */
  lemma {:induction false} SanitizeDeletesOnly(s: string)
    ensures IsSubsequence(Sanitize(s), s)
    ensures |Sanitize(s)| <= |s|
    decreases |s|
  {
    if s != [] {
      SanitizeStep(s);
      match MatchLength(s)
      case Some(n) =>
        SanitizeDeletesOnly(s[n..]);
        SubsequenceOfSuffix(Sanitize(s), s, n);
      case None =>
        SanitizeDeletesOnly(s[1..]);
        var r := Sanitize(s);
        assert r[0] == s[0] && r[1..] == Sanitize(s[1..]);
    }
    SubsequenceLength(Sanitize(s), s);
  }

  lemma {:induction false} ConcatAppend(a: seq<Piece>, b: seq<Piece>)
    ensures Concat(a + b) == Concat(a) + Concat(b)
  {
    if a != [] {
      assert (a + b)[1..] == a[1..] + b;
      ConcatAppend(a[1..], b);
    } else {
      assert a + b == b;
    }
  }

  /** The scan of a non-empty text is its first piece, a prefix of it, then the scan of the rest. */
  lemma ScanUnfold(u: string)
    requires u != []
    ensures var p := Scan(u)[0];
            && 1 <= |PieceText(p)| <= |u|
            && u[..|PieceText(p)|] == PieceText(p)
            && Scan(u) == [p] + Scan(u[|PieceText(p)|..])
  {
  }

  /** Slicing a suffix again, and cutting a prefix in two. */
  lemma SliceOfSlice(s: string, a: nat, b: nat)
    requires a + b <= |s|
    ensures s[a..][b..] == s[a + b..]
    ensures s[..a + b] == s[..a] + s[a..][..b]
  {
  }

  /** A non-empty prefix of `xs` is the prefix one shorter, then its last element. */
  lemma PrefixSnoc<T>(xs: seq<T>, j: nat)
    requires 0 < j <= |xs|
    ensures xs[..j] == xs[..j - 1] + [xs[j - 1]]
  {
  }

  /**
   * Scanning from offset `off`: the first piece is the text of `s` at `off`, and
   * the scan after it is the scan from the end of that piece.
   */
  lemma ScanStep(s: string, off: nat)
    requires off < |s|
    ensures var p := Scan(s[off..])[0];
            var m := |PieceText(p)|;
            && off + m <= |s|
            && s[..off + m] == s[..off] + PieceText(p)
            && Scan(s[off..])[1..] == Scan(s[off + m..])
  {
    var u := s[off..];
    ScanUnfold(u);
    SliceOfSlice(s, off, |PieceText(Scan(u)[0])|);
  }

  /** After its first `j` pieces, the scan of `s` goes on as the scan of the rest of `s`. */
  lemma {:induction false} ScanSuffix(s: string, j: nat)
    requires j <= |Scan(s)|
    ensures var off := |Concat(Scan(s)[..j])|;
            && off <= |s|
            && s[..off] == Concat(Scan(s)[..j])
            && Scan(s)[j..] == Scan(s[off..])
  {
    var ps := Scan(s);
    if j == 0 {
      assert ps[..0] == [];
      assert Concat(ps[..0]) == [];
      assert s[0..] == s;
      assert ps[0..] == ps;
    } else {
      ScanSuffix(s, j - 1);
      var off := |Concat(ps[..j - 1])|;
      var p := ps[j - 1];
      var m := |PieceText(p)|;
      assert ps[j - 1..][0] == p;
      ScanStep(s, off);
      assert ps[j..] == ps[j - 1..][1..];
      PrefixSnoc(ps, j);
      ConcatAppend(ps[..j - 1], [p]);
      assert Concat([p]) == PieceText(p);
      var off2 := |Concat(ps[..j])|;
      assert off2 == off + m;
      assert ps[j..] == Scan(s[off2..]);
    }
  }

  /**
   * Piece `j` of the scan sits at offset `|Concat(Scan(s)[..j])|` of `s`: it is
   * removed exactly when a match is anchored there, and then it is that match.
   */
  lemma PieceAt(s: string, j: nat)
    requires j < |Scan(s)|
    ensures var p := Scan(s)[j];
            var off := |Concat(Scan(s)[..j])|;
            && off <= |s|
            && s[..off] == Concat(Scan(s)[..j])
            && PieceText(p) <= s[off..]
            && MatchLength(s[off..]) == (if p.Kept? then None else Some(|p.span|))
  {
    ScanSuffix(s, j);
    var off := |Concat(Scan(s)[..j])|;
    var p := Scan(s)[j];
    var u := s[off..];
    assert Scan(u)[0] == p;
    assert Scan(u) == [p] + Scan(u[|PieceText(p)|..]);
  }

  /**
   * Where ESC `[` and a run of class characters is followed by something other than
   * `m` or `K` (or by nothing), nothing is removed there: the ESC is kept and the
   * scan resumes at the next character.
   */
  lemma FailedIntroducerKept(params: string, rest: string)
    requires forall i :: 0 <= i < |params| ==> IsParam(params[i])
    requires rest != [] ==> !IsParam(rest[0]) && !IsFinal(rest[0])
    ensures var s := [ESC, '['] + params + rest;
            Sanitize(s) == [ESC] + Sanitize(s[1..])
  {
    var s := [ESC, '['] + params + rest;
    var t := s[2..];
    assert t == params + rest;
    assert forall i :: 0 <= i < |params| ==> t[i] == params[i];
    assert rest != [] ==> t[|params|] == rest[0];
    assert ParamRun(t) == |params|;
    assert MatchLength(s).None?;
    SanitizeStep(s);
  }

  /** The sanitiser returns its input unchanged exactly when no substring of it matches. */
  lemma UnchangedIffNoMatch(s: string)
    ensures Sanitize(s) == s <==> NoEscapeSequenceIn(s)
  {
    if Sanitize(s) == s {
      UnchangedHasNoMatch(s);
    }
    if NoEscapeSequenceIn(s) {
      NoMatchUnchanged(s);
    }
  }

  lemma {:induction false} UnchangedHasNoMatch(s: string)
    requires Sanitize(s) == s
    ensures NoEscapeSequenceIn(s)
    decreases |s|
  {
    if s == [] {
      assert forall i, k :: 0 <= i <= k <= |s| ==> s[i..k] == [];
    } else {
      SanitizeStep(s);
      if MatchLength(s).Some? {
        SanitizeDeletesOnly(s[MatchLength(s).value..]);
      }
      assert MatchLength(s).None?;
      assert s == [s[0]] + s[1..];
      assert Sanitize(s[1..]) == s[1..];
      UnchangedHasNoMatch(s[1..]);
      NoMatchExtends(s);
    }
  }

  lemma {:induction false} NoMatchUnchanged(s: string)
    requires NoEscapeSequenceIn(s)
    ensures Sanitize(s) == s
    decreases |s|
  {
    if s != [] {
      forall k | 0 <= k <= |s|
        ensures !IsEscapeSequence(s[..k])
      {
        assert s[..k] == s[0..k];
      }
      assert MatchLength(s).None?;
      forall i, k | 0 <= i <= k <= |s| - 1
        ensures !IsEscapeSequence(s[1..][i..k])
      {
        assert s[1..][i..k] == s[i + 1..k + 1];
      }
      NoMatchUnchanged(s[1..]);
      SanitizeStep(s);
      assert s == [s[0]] + s[1..];
    }
  }

  /** No match anchored at the start and none inside the tail: none anywhere. */
  lemma NoMatchExtends(s: string)
    requires s != [] && MatchLength(s).None? && NoEscapeSequenceIn(s[1..])
    ensures NoEscapeSequenceIn(s)
  {
    var t := s[1..];
    forall i, k | 0 <= i <= k <= |s|
      ensures !IsEscapeSequence(s[i..k])
    {
      if i == 0 {
        assert s[i..k] == s[..k];
      } else {
        assert s[i..k] == t[i - 1..k - 1];
        assert !IsEscapeSequence(t[i - 1..k - 1]);
      }
    }
  }

  /** Text without an ESC character comes back unchanged. */
  lemma NoEscapeUnchanged(s: string)
    requires forall i :: 0 <= i < |s| ==> s[i] != ESC
    ensures Sanitize(s) == s
  {
    forall i, k | 0 <= i <= k <= |s|
      ensures !IsEscapeSequence(s[i..k])
    {
      if k - i >= 3 {
        assert s[i..k][0] == s[i];
      }
    }
    UnchangedIffNoMatch(s);
  }

  /**
   * The sanitiser is not idempotent and its result may still hold a sequence of the
   * pattern: ESC `[` ESC `[0m` `m` becomes ESC `[m`, which a second pass removes.
   */
  lemma NotIdempotent()
    ensures var s := [ESC, '[', ESC, '[', '0', 'm', 'm'];
            && Sanitize(s) == [ESC, '[', 'm']
            && IsEscapeSequence(Sanitize(s))
            && Sanitize(Sanitize(s)) == []
  {
    var s := [ESC, '[', ESC, '[', '0', 'm', 'm'];
    FirstPass(s);
    SecondPass([ESC, '[', 'm']);
  }

  lemma FirstPass(s: string)
    requires s == [ESC, '[', ESC, '[', '0', 'm', 'm']
    ensures Sanitize(s) == [ESC, '[', 'm']
  {
    var u := s[2..];
    assert s == [ESC, '['] + [] + u;
    FailedIntroducerKept([], u);
    InnerPass(s[1..]);
  }

  lemma InnerPass(t: string)
    requires t == ['[', ESC, '[', '0', 'm', 'm']
    ensures Sanitize(t) == ['[', 'm']
  {
    OrdinaryCharKept(t);
    var u := t[1..];
    EscapeSequenceRemoved(u, 4);
    NoEscapeUnchanged(u[4..]);
  }

  lemma SecondPass(r: string)
    requires r == [ESC, '[', 'm']
    ensures Sanitize(r) == []
  {
    EscapeSequenceRemoved(r, 3);
    NoEscapeUnchanged(r[3..]);
  }

  /** A character other than ESC is kept and the scan resumes after it. */
  lemma OrdinaryCharKept(s: string)
    requires s != [] && s[0] != ESC
    ensures Sanitize(s) == [s[0]] + Sanitize(s[1..])
  {
    SanitizeStep(s);
  }

  /** A match anchored at the start is removed and the scan resumes after it. */
  lemma EscapeSequenceRemoved(s: string, k: nat)
    requires k <= |s| && IsEscapeSequence(s[..k])
    ensures Sanitize(s) == Sanitize(s[k..])
  {
    MatchIsUnique(s, k);
    SanitizeStep(s);
  }
}
