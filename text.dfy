/**
 * Python string helpers the blog relies on: the whitespace class shared by
 * `str.strip()` and the `\s` escape of `re`, `str.strip()`, `str.split(sep)`
 * with its inverse `sep.join(...)`, and the decimal rendering of `str(n)`.
 */
module Text {

  /** Python's `str.isspace()` (also what `\s` matches in a `re` pattern over `str`). */
  predicate IsSpace(c: char) {
    || ('\t' <= c <= '\r')
    || ('\U{1C}' <= c <= ' ')
    || c == '\U{85}' || c == '\U{A0}' || c == '\U{1680}'
    || ('\U{2000}' <= c <= '\U{200A}')
    || c == '\U{2028}' || c == '\U{2029}' || c == '\U{202F}' || c == '\U{205F}' || c == '\U{3000}'
  }

  /** Length of the run of whitespace at the start of `s`. */
  function LeadingSpaces(s: string): (k: nat)
    ensures k <= |s|
    ensures forall i :: 0 <= i < k ==> IsSpace(s[i])
    ensures k < |s| ==> !IsSpace(s[k])
  {
    if s == [] || !IsSpace(s[0]) then 0 else 1 + LeadingSpaces(s[1..])
  }

  /** Length of the run of whitespace at the end of `s`. */
  function TrailingSpaces(s: string): (k: nat)
    ensures k <= |s|
    ensures forall i :: |s| - k <= i < |s| ==> IsSpace(s[i])
    ensures k < |s| ==> !IsSpace(s[|s| - 1 - k])
  {
    if s == [] || !IsSpace(s[|s| - 1]) then 0 else 1 + TrailingSpaces(s[..|s| - 1])
  }

  /** `s` is empty or does not end in whitespace. */
  predicate EndsInText(s: string) {
    s == [] || !IsSpace(s[|s| - 1])
  }

  /** `s` is empty or does not start with whitespace. */
  predicate StartsWithText(s: string) {
    s == [] || !IsSpace(s[0])
  }

  /** A whitespace run followed by a non-space (or nothing) is the whole leading run. */
  lemma LeadingSpacesRun(w: string, b: string)
    requires forall i :: 0 <= i < |w| ==> IsSpace(w[i])
    requires StartsWithText(b)
    ensures LeadingSpaces(w + b) == |w|
  {
    forall i | 0 <= i < |w| ensures IsSpace((w + b)[i]) {
      assert (w + b)[i] == w[i];
    }
    assert b != [] ==> (w + b)[|w|] == b[0];
  }

  /** The leading run of `a` ends inside `a` when `a` is not all whitespace, whatever follows. */
  lemma LeadingSpacesPrefix(a: string, x: string)
    requires LeadingSpaces(a) < |a|
    ensures LeadingSpaces(a + x) == LeadingSpaces(a)
  {
    var k := LeadingSpaces(a);
    assert (a + x)[k] == a[k];
    LeadingSpacesRun(a[..k], (a + x)[k..]);
    assert a[..k] + (a + x)[k..] == a + x;
  }

  /** Concatenation regroups. */
  lemma AppendAssoc(a: string, b: string, c: string)
    ensures a + b + c == a + (b + c)
  {
  }

  /** Dropping a prefix of `a` from `a + x` leaves the rest of `a` followed by `x`. */
  lemma DropAppend(a: string, x: string, k: nat)
    requires k <= |a|
    ensures (a + x)[k..] == a[k..] + x
  {
  }

  /** Every character of `s` is whitespace. */
  predicate AllSpaces(s: string) {
    forall i :: 0 <= i < |s| ==> IsSpace(s[i])
  }

  /** `s` with its whitespace characters taken out: the text that any respacing must keep. */
  function NonSpace(s: string): string {
    if s == [] then [] else (if IsSpace(s[0]) then [] else [s[0]]) + NonSpace(s[1..])
  }

  /** A leading run of whitespace contributes nothing to the non-space text. */
  lemma {:induction false} NonSpaceDropSpaces(s: string, k: nat)
    requires k <= |s| && forall i :: 0 <= i < k ==> IsSpace(s[i])
    ensures NonSpace(s) == NonSpace(s[k..])
  {
    if k > 0 {
      NonSpaceDropSpaces(s[1..], k - 1);
      assert s[1..][k - 1..] == s[k..];
    }
  }

  /** Putting one character in front adds it unless it is whitespace. */
  lemma NonSpaceCons(c: char, s: string)
    ensures NonSpace([c] + s) == (if IsSpace(c) then [] else [c]) + NonSpace(s)
  {
    assert ([c] + s)[1..] == s;
  }

  /** A whitespace character in front adds nothing to the non-space text. */
  lemma NonSpaceConsSpace(c: char, s: string)
    requires IsSpace(c)
    ensures NonSpace([c] + s) == NonSpace(s)
  {
    assert ([c] + s)[1..] == s;
  }

  /** Any other character in front is kept. */
  lemma NonSpaceConsText(c: char, s: string)
    requires !IsSpace(c)
    ensures NonSpace([c] + s) == [c] + NonSpace(s)
  {
    assert ([c] + s)[1..] == s;
  }

  /** `s` neither starts nor ends with whitespace. */
  predicate Trimmed(s: string) {
    s == [] || (!IsSpace(s[0]) && !IsSpace(s[|s| - 1]))
  }

  /**
   * `s.strip()`: `s` without the whitespace at both ends. What is left
   * neither starts nor ends with whitespace and is made of characters of
   * `s`; the lemmas below show it is the infix between the two whitespace
   * runs.
   */
  function Strip(s: string): (r: string)
    ensures Trimmed(r)
    ensures forall c :: c in r ==> c in s
  {
    var a := LeadingSpaces(s);
    var t := s[a..];
    var r := t[..|t| - TrailingSpaces(t)];
    StripEnds(s, a, t, r);
    r
  }

  /** The infix `Strip` keeps has no whitespace at either end and is made of characters of `s`. */
  lemma StripEnds(s: string, a: nat, t: string, r: string)
    requires a == LeadingSpaces(s) && t == s[a..] && r == t[..|t| - TrailingSpaces(t)]
    ensures Trimmed(r)
    ensures forall c :: c in r ==> c in s
  {
    if r != [] {
      assert r[0] == t[0] == s[a];
      assert r[|r| - 1] == t[|t| - 1 - TrailingSpaces(t)];
    }
    forall c | c in r ensures c in s {
      var j :| 0 <= j < |r| && r[j] == c;
      assert s[a + j] == c;
    }
  }

  /** `Strip(s)` is the infix of `s` that starts after the leading whitespace. */
  lemma StripIsInfix(s: string)
    ensures LeadingSpaces(s) + |Strip(s)| <= |s|
    ensures Strip(s) == s[LeadingSpaces(s)..LeadingSpaces(s) + |Strip(s)|]
  {
    var a := LeadingSpaces(s);
    var t := s[a..];
    assert Strip(s) == t[..|t| - TrailingSpaces(t)];
  }

  /** The trailing run `TrailingSpaces` measures is whitespace. */
  lemma TrailingRunAllSpaces(t: string)
    ensures AllSpaces(t[|t| - TrailingSpaces(t)..])
  {
    var b := TrailingSpaces(t);
    var tail := t[|t| - b..];
    forall j | 0 <= j < |tail| ensures IsSpace(tail[j]) {
      var i := |t| - b + j;
      assert tail[j] == t[i] && IsSpace(t[i]);
    }
  }

  /** Dropping `a` and then `n` more elements is dropping `a + n`. */
  lemma DropDrop(s: string, a: nat, n: nat)
    requires a + n <= |s|
    ensures s[a + n..] == s[a..][n..]
  {
  }

  /** What `Strip` removes after the infix is whitespace (before it, `LeadingSpaces` says so). */
  lemma StripRemovesSpaces(s: string)
    ensures LeadingSpaces(s) + |Strip(s)| <= |s|
    ensures AllSpaces(s[LeadingSpaces(s) + |Strip(s)|..])
  {
    var t := s[LeadingSpaces(s)..];
    assert Strip(s) == t[..|t| - TrailingSpaces(t)];
    TrailingRunAllSpaces(t);
    DropDrop(s, LeadingSpaces(s), |Strip(s)|);
  }

  /** `Strip` leaves nothing exactly when `s` is all whitespace. */
  lemma StripEmptyIffAllSpaces(s: string)
    ensures Strip(s) == [] <==> AllSpaces(s)
  {
    var a := LeadingSpaces(s);
    if Strip(s) != [] {
      StripIsInfix(s);
      assert Strip(s)[0] == s[a];
    }
  }

  /** `s.split(sep)`: the pieces between the separators, empty pieces included. */
  function Split(s: string, sep: char): (r: seq<string>)
    ensures |r| >= 1
    ensures forall k :: 0 <= k < |r| ==> sep !in r[k]
  {
    if s == [] then [[]]
    else
      var rest := Split(s[1..], sep);
      if s[0] == sep then [[]] + rest
      else [[s[0]] + rest[0]] + rest[1..]
  }

  /** `sep.join(pieces)`. */
  function Join(pieces: seq<string>, sep: char): string
  {
    if |pieces| == 0 then []
    else if |pieces| == 1 then pieces[0]
    else pieces[0] + [sep] + Join(pieces[1..], sep)
  }

  /** Joining the pieces of a split gives back the original text. */
  lemma {:induction false} JoinSplit(s: string, sep: char)
    ensures Join(Split(s, sep), sep) == s
  {
    if s != [] {
      var rest := Split(s[1..], sep);
      JoinSplit(s[1..], sep);
      if s[0] == sep {
        assert Split(s, sep) == [[]] + rest;
        assert Join([[]] + rest, sep) == [] + [sep] + Join(rest, sep);
      } else {
        var pieces := [[s[0]] + rest[0]] + rest[1..];
        assert Split(s, sep) == pieces;
        if |rest| == 1 {
          assert Join(pieces, sep) == [s[0]] + rest[0];
        } else {
          assert pieces[1..] == rest[1..];
          assert Join(rest, sep) == rest[0] + [sep] + Join(rest[1..], sep);
          assert Join(pieces, sep) == [s[0]] + rest[0] + [sep] + Join(rest[1..], sep);
        }
      }
    }
  }

  /** Splitting a join of separator-free pieces gives back the pieces. */
  lemma {:induction false} SplitJoin(pieces: seq<string>, sep: char)
    requires |pieces| >= 1
    requires forall k :: 0 <= k < |pieces| ==> sep !in pieces[k]
    ensures Split(Join(pieces, sep), sep) == pieces
  {
    if |pieces| == 1 {
      SplitPiece(pieces[0], sep);
    } else {
      SplitJoin(pieces[1..], sep);
      SplitPrefix(pieces[0], Join(pieces[1..], sep), sep);
      assert [pieces[0]] + pieces[1..] == pieces;
    }
  }

  /** A separator-free text splits into itself alone. */
  lemma {:induction false} SplitPiece(p: string, sep: char)
    requires sep !in p
    ensures Split(p, sep) == [p]
  {
    if p != [] {
      SplitPiece(p[1..], sep);
      assert [p[0]] + p[1..] == p;
    }
  }

  /** Splitting `p + [sep] + t`, with `p` separator-free, puts `p` in front of the pieces of `t`. */
  lemma {:induction false} SplitPrefix(p: string, t: string, sep: char)
    requires sep !in p
    ensures Split(p + [sep] + t, sep) == [p] + Split(t, sep)
  {
    if p == [] {
      assert p + [sep] + t == [sep] + t;
      assert ([sep] + t)[1..] == t;
    } else {
      SplitPrefix(p[1..], t, sep);
      assert (p + [sep] + t)[1..] == p[1..] + [sep] + t;
      assert [p[0]] + p[1..] == p;
    }
  }

  function DigitChar(d: nat): char
    requires d < 10
  {
    ('0' as int + d) as char
  }

  /** The number a digit character stands for. */
  function DigitValue(c: char): int {
    c as int - '0' as int
  }

  /** The number a string of decimal digits denotes, most significant first. */
  function DecimalValue(s: string): int {
    if s == [] then 0 else 10 * DecimalValue(s[..|s| - 1]) + DigitValue(s[|s| - 1])
  }

  /** `str(n)` for a non-negative integer: its decimal digits, most significant first. */
  function Decimal(n: nat): (r: string)
    ensures |r| >= 1
    ensures forall k :: 0 <= k < |r| ==> '0' <= r[k] <= '9'
    ensures |r| > 1 ==> r[0] != '0'
  {
    if n < 10 then [DigitChar(n)] else Decimal(n / 10) + [DigitChar(n % 10)]
  }

  /** Reading back the digits of `str(n)` gives `n`. */
  lemma {:induction false} DecimalRoundTrip(n: nat)
    ensures DecimalValue(Decimal(n)) == n
  {
    if n >= 10 {
      DecimalRoundTrip(n / 10);
      var r := Decimal(n);
      assert r[..|r| - 1] == Decimal(n / 10);
    }
  }

  /** Different numbers have different decimal renderings. */
  lemma DecimalInjective(a: nat, b: nat)
    requires Decimal(a) == Decimal(b)
    ensures a == b
  {
    DecimalRoundTrip(a);
    DecimalRoundTrip(b);
  }
}
