/**
 * The summary a post stores beside its content (`Post.summarize`): four
 * regular-expression substitutions applied in order, then truncation.
 *
 *   1. `</?[^>]+/?>`         -> ''      markup tags are removed
 *   2. `[^a-zA-Z0-9,.?!]`    -> ' '     every other character becomes a space
 *   3. `\s*([.,?!])\s*`      -> '\1 '   punctuation gets exactly one space after it
 *   4. `\s+`                 -> ' '     whitespace runs collapse to one space
 *   5. more than 100 characters: the first 100 followed by "..."
 *
 * Each stage is a left-to-right scan, as `re.sub` performs it; nothing trims
 * the result, so a summary can end in a space.
 */
module Summary {
  import opened Text

  const MaxLength: nat := 100
  const Ellipsis: string := "..."

  predicate IsPunct(c: char) {
    c == '.' || c == ',' || c == '?' || c == '!'
  }

  /** The characters stage 2 keeps: ASCII letters, digits and `,.?!`. */
  predicate IsKept(c: char) {
    ('a' <= c <= 'z') || ('A' <= c <= 'Z') || ('0' <= c <= '9') || IsPunct(c)
  }

  lemma PunctNotSpace(c: char)
    requires IsPunct(c)
    ensures !IsSpace(c)
  {
  }

  lemma SpaceNotPunct(c: char)
    requires IsSpace(c)
    ensures !IsPunct(c)
  {
  }

  /** The alphabet of a summary before truncation: kept characters and the plain space. */
  predicate InAlphabet(s: string) {
    forall i :: 0 <= i < |s| ==> IsKept(s[i]) || s[i] == ' '
  }

  /** No two whitespace characters are adjacent. */
  predicate NoDoubleSpace(s: string) {
    forall i :: 0 <= i < |s| - 1 ==> !(IsSpace(s[i]) && IsSpace(s[i + 1]))
  }

  /** Every punctuation mark is followed by one space and then not by a second one. */
  predicate PunctSpaced(s: string) {
    forall i :: 0 <= i < |s| && IsPunct(s[i]) ==>
      i + 1 < |s| && s[i + 1] == ' ' && (i + 2 < |s| ==> !IsSpace(s[i + 2]))
  }

  // ---------------------------------------------------------------- stage 1

  /** Position of the first `>` in `s`, or `|s|` when there is none. */
  function FirstClose(s: string): (k: nat)
    ensures k <= |s|
    ensures forall j :: 0 <= j < k ==> s[j] != '>'
    ensures k < |s| ==> s[k] == '>'
    ensures k == |s| <==> '>' !in s
  {
    if s == [] || s[0] == '>' then 0 else 1 + FirstClose(s[1..])
  }

  /**
   * The pattern `</?[^>]+/?>` matches at `i`: a `<`, then at least one
   * character before the first `>` that follows it.
   */
  predicate TagAt(s: string, i: nat)
    requires i < |s|
  {
    s[i] == '<' && i + 1 < |s| && s[i + 1] != '>' && '>' in s[i + 2..]
  }

  predicate NoMarkup(s: string) {
    forall i :: 0 <= i < |s| ==> !TagAt(s, i)
  }

  /** Stage 1. A match always ends at the first `>` after its `<`. */
  function StripMarkup(s: string): (r: string)
    ensures |r| <= |s|
    ensures forall c :: c in r ==> c in s
    ensures s != [] && !TagAt(s, 0) ==> r != [] && r[0] == s[0]
    ensures NoMarkup(r)
  {
    if s == [] then []
    else if TagAt(s, 0) then
      var close := 2 + FirstClose(s[2..]);
      StripMarkup(s[close + 1..])
    else
      var rest := StripMarkup(s[1..]);
      KeptFirstNoMarkup(s, rest);
      [s[0]] + rest
  }

  /** Putting back a first character that does not open a tag keeps the text free of tags. */
  lemma KeptFirstNoMarkup(s: string, rest: string)
    requires s != [] && !TagAt(s, 0)
    requires NoMarkup(rest)
    requires forall c :: c in rest ==> c in s[1..]
    requires |s| > 1 && !TagAt(s, 1) ==> rest != [] && rest[0] == s[1]
    ensures NoMarkup([s[0]] + rest)
  {
    var r := [s[0]] + rest;
    forall i | 0 <= i < |r|
      ensures !TagAt(r, i)
    {
      if i == 0 {
        if r[0] == '<' && |r| > 1 && r[1] != '>' {
          assert rest[0] in rest;
          assert |s| > 1;
          // a `>` right after the `<` would have been kept at the front of rest
          assert s[1] != '>';
          assert '>' !in s[2..];
          assert s[1..] == [s[1]] + s[2..];
          assert '>' !in s[1..];
          assert '>' !in r[2..] by {
            forall j | 2 <= j < |r| ensures r[j] != '>' {
              assert r[j] == rest[j - 1] && rest[j - 1] in rest;
            }
          }
        }
      } else {
        assert r[i] == rest[i - 1];
        if i + 1 < |r| {
          assert r[i + 1] == rest[i];
          assert r[i + 2..] == rest[i + 1..];
        }
        assert !TagAt(rest, i - 1);
      }
    }
  }

  /** Stage 1 leaves text without tags untouched. */
  lemma {:induction false} StripMarkupNoMarkup(s: string)
    requires NoMarkup(s)
    ensures StripMarkup(s) == s
  {
    if s != [] {
      assert !TagAt(s, 0);
      forall i | 0 <= i < |s| - 1 ensures !TagAt(s[1..], i) {
        assert !TagAt(s, i + 1);
        if i + 1 < |s| - 1 {
          assert s[1..][i + 2..] == s[i + 3..];
        }
      }
      StripMarkupNoMarkup(s[1..]);
      assert [s[0]] + s[1..] == s;
    }
  }

  /** Stage 1 is idempotent. */
  lemma StripMarkupIdempotent(s: string)
    ensures StripMarkup(StripMarkup(s)) == StripMarkup(s)
  {
    StripMarkupNoMarkup(StripMarkup(s));
  }

  /** Text that cannot open a tag passes through stage 1 unchanged, whatever follows it. */
  lemma {:induction false} StripMarkupKeepsPlain(a: string, b: string)
    requires '<' !in a
    ensures StripMarkup(a + b) == a + StripMarkup(b)
  {
    if a == [] {
      assert a + b == b;
    } else {
      StripMarkupCopyStep(a, b);
      var tail := a[1..];
      assert '<' !in tail;
      StripMarkupKeepsPlain(tail, b);
      AppendAssoc([a[0]], tail, StripMarkup(b));
      assert [a[0]] + tail == a;
    }
  }

  /** A first character other than `<` is copied. */
  lemma StripMarkupCopyStep(a: string, b: string)
    requires a != [] && a[0] != '<'
    ensures StripMarkup(a + b) == [a[0]] + StripMarkup(a[1..] + b)
  {
    assert (a + b)[0] == a[0];
    DropAppend(a, b, 1);
  }

  /** `<>` is no tag: both brackets are kept, whatever follows them. */
  lemma StripMarkupKeepsEmptyBrackets(b: string)
    ensures StripMarkup("<>" + b) == "<>" + StripMarkup(b)
  {
    var s := "<>" + b;
    assert s[0] == '<' && s[1] == '>' && s[1..] == ">" + b;
    assert !TagAt(s, 0);
    StripMarkupCopyStep(">", b);
    assert ">"[1..] + b == b;
    AppendAssoc("<", ">", StripMarkup(b));
    assert "<" + ">" == "<>";
  }

  /** A tag `<x>` (some non-empty `x` without `>`) at the front is removed, and only it. */
  lemma StripMarkupDropsTag(x: string, b: string)
    requires x != [] && '>' !in x
    ensures StripMarkup("<" + x + ">" + b) == StripMarkup(b)
  {
    var s := "<" + x + ">" + b;
    var u := s[2..];
    assert s[1] == x[0];
    assert u == x[1..] + ">" + b;
    assert u[|x| - 1] == '>';
    assert forall j :: 0 <= j < |x| - 1 ==> u[j] == x[j + 1];
    assert TagAt(s, 0);
    assert FirstClose(u) == |x| - 1;
    assert s[|x| + 2..] == b;
  }

  // ---------------------------------------------------------------- stage 2

  /** Stage 2: a character-for-character replacement. */
  function Clean(s: string): (r: string)
    ensures |r| == |s|
    ensures forall i :: 0 <= i < |s| ==> r[i] == (if IsKept(s[i]) then s[i] else ' ')
  {
    if s == [] then [] else [if IsKept(s[0]) then s[0] else ' '] + Clean(s[1..])
  }

  // ---------------------------------------------------------------- stage 3

  /**
   * Stage 3. At a punctuation mark the pattern matches with no whitespace
   * before it; at a whitespace character it matches only when the whole run
   * is followed by a mark. A match also swallows the whitespace after the
   * mark, and the scan resumes after it.
   */
  function Punctuate(s: string): (r: string)
    ensures forall c :: c in r ==> c in s || c == ' '
    ensures s != [] && !IsSpace(s[0]) ==> r != [] && r[0] == s[0]
    ensures PunctSpaced(r)
    decreases |s|
  {
    if s == [] then []
    else if IsPunct(s[0]) then
      var t := s[1 + LeadingSpaces(s[1..])..];
      var rest := Punctuate(t);
      assert forall c :: c in rest ==> c in s || c == ' ' by {
        forall c | c in rest && c != ' ' ensures c in s {
          var j :| 0 <= j < |t| && t[j] == c;
          assert s[1 + LeadingSpaces(s[1..]) + j] == c;
        }
      }
      var r := [s[0], ' '] + rest;
      assert PunctSpaced(r) by {
        forall i | 0 <= i < |r| && IsPunct(r[i])
          ensures i + 1 < |r| && r[i + 1] == ' ' && (i + 2 < |r| ==> !IsSpace(r[i + 2]))
        {
          if i >= 2 {
            assert r[i] == rest[i - 2];
          } else if i == 0 && |r| > 2 {
            assert t != [] && !IsSpace(t[0]);
          }
        }
      }
      r
    else if IsSpace(s[0]) && LeadingSpaces(s) < |s| && IsPunct(s[LeadingSpaces(s)]) then
      Punctuate(s[LeadingSpaces(s)..])
    else
      var rest := Punctuate(s[1..]);
      var r := [s[0]] + rest;
      assert PunctSpaced(r) by {
        forall i | 1 <= i < |r| && IsPunct(r[i])
          ensures i + 1 < |r| && r[i + 1] == ' ' && (i + 2 < |r| ==> !IsSpace(r[i + 2]))
        {
          assert r[i] == rest[i - 1];
        }
      }
      r
  }

  /** Stage 3 keeps the non-whitespace text, in order: it only respaces. */
  lemma {:induction false} PunctuateKeepsText(s: string)
    ensures NonSpace(Punctuate(s)) == NonSpace(s)
    decreases |s|
  {
    if s == [] {
    } else if IsPunct(s[0]) {
      var t := s[1 + LeadingSpaces(s[1..])..];
      PunctuateKeepsText(t);
      MarkKeepsText(s, t, Punctuate(t));
    } else if IsSpace(s[0]) && LeadingSpaces(s) < |s| && IsPunct(s[LeadingSpaces(s)]) {
      PunctuateKeepsText(s[LeadingSpaces(s)..]);
      NonSpaceDropSpaces(s, LeadingSpaces(s));
    } else {
      PunctuateKeepsText(s[1..]);
      CopyKeepsText(s, Punctuate(s[1..]));
    }
  }

  /** Emitting the mark and a space for the mark at the front of `s` keeps its text. */
  lemma MarkKeepsText(s: string, t: string, rest: string)
    requires s != [] && IsPunct(s[0]) && t == s[1 + LeadingSpaces(s[1..])..]
    requires NonSpace(rest) == NonSpace(t)
    ensures NonSpace([s[0], ' '] + rest) == NonSpace(s)
  {
    var k := LeadingSpaces(s[1..]);
    assert s[1..][k..] == t;
    NonSpaceDropSpaces(s[1..], k);
    PunctNotSpace(s[0]);
    assert [s[0]] + s[1..] == s;
    NonSpaceConsText(s[0], s[1..]);
    assert [s[0], ' '] + rest == [s[0]] + ([' '] + rest);
    NonSpaceConsText(s[0], [' '] + rest);
    NonSpaceConsSpace(' ', rest);
  }

  /** Copying the first character of `s` keeps its text. */
  lemma CopyKeepsText(s: string, rest: string)
    requires s != [] && NonSpace(rest) == NonSpace(s[1..])
    ensures NonSpace([s[0]] + rest) == NonSpace(s)
  {
    assert [s[0]] + s[1..] == s;
    NonSpaceCons(s[0], s[1..]);
    NonSpaceCons(s[0], rest);
  }

  /** No character of `s` is a punctuation mark. */
  predicate NoPunct(s: string) {
    forall i :: 0 <= i < |s| ==> !IsPunct(s[i])
  }

  /** Stage 3 copies a mark-free text that does not end in whitespace, whatever follows it. */
  lemma {:induction false} PunctuateKeepsPlain(a: string, rest: string)
    requires NoPunct(a) && EndsInText(a)
    ensures Punctuate(a + rest) == a + Punctuate(rest)
    decreases |a|
  {
    if a == [] {
      assert a + rest == rest;
    } else {
      PunctuateCopyStep(a, rest);
      var tail := a[1..];
      assert tail != [] ==> tail[|tail| - 1] == a[|a| - 1];
      PunctuateKeepsPlain(tail, rest);
      AppendAssoc([a[0]], tail, Punctuate(rest));
      assert [a[0]] + tail == a;
    }
  }

  /** Stage 3 leaves a text without marks unchanged, trailing whitespace included. */
  lemma {:induction false} PunctuateNoMarks(s: string)
    requires NoPunct(s)
    ensures Punctuate(s) == s
    decreases |s|
  {
    if s != [] {
      PunctuateNoMarkStep(s);
      assert NoPunct(s[1..]) by {
        forall i | 0 <= i < |s| - 1 ensures !IsPunct(s[1..][i]) {
          assert s[1..][i] == s[i + 1];
        }
      }
      PunctuateNoMarks(s[1..]);
      assert [s[0]] + s[1..] == s;
    }
  }

  /** In a text without marks, the first character is copied. */
  lemma PunctuateNoMarkStep(s: string)
    requires s != [] && NoPunct(s)
    ensures Punctuate(s) == [s[0]] + Punctuate(s[1..])
  {
    assert !IsPunct(s[0]);
    if LeadingSpaces(s) < |s| {
      assert !IsPunct(s[LeadingSpaces(s)]);
    }
  }

  /** The first character of a mark-free text that does not end in whitespace is copied. */
  lemma PunctuateCopyStep(a: string, rest: string)
    requires a != [] && NoPunct(a) && EndsInText(a)
    ensures Punctuate(a + rest) == [a[0]] + Punctuate(a[1..] + rest)
  {
    var s := a + rest;
    assert s[0] == a[0] && !IsPunct(a[0]);
    DropAppend(a, rest, 1);
    if IsSpace(a[0]) {
      LeadingSpacesPrefix(a, rest);
      assert s[LeadingSpaces(s)] == a[LeadingSpaces(a)];
    }
  }

  /**
   * Stage 3 on a mark with whitespace on either side: the match is replaced
   * by the mark and one space, and the scan goes on after it.
   */
  lemma PunctuateMark(w1: string, m: char, w2: string, b: string)
    requires AllSpaces(w1) && IsPunct(m) && AllSpaces(w2) && StartsWithText(b)
    ensures Punctuate(w1 + [m] + w2 + b) == [m, ' '] + Punctuate(b)
  {
    var at := [m] + w2 + b;
    PunctuateAtMark(m, w2, b);
    PunctuateSkipSpaces(w1, at);
    AppendAssoc(w1, [m], w2);
    AppendAssoc(w1, [m] + w2, b);
    AppendAssoc(w1 + [m], w2, b);
  }

  /** A mark followed by a whitespace run becomes the mark and one space. */
  lemma PunctuateAtMark(m: char, w: string, b: string)
    requires IsPunct(m) && AllSpaces(w) && StartsWithText(b)
    ensures Punctuate([m] + w + b) == [m, ' '] + Punctuate(b)
  {
    var s := [m] + w + b;
    AppendAssoc([m], w, b);
    assert s[0] == m;
    DropAppend([m], w + b, 1);
    LeadingSpacesRun(w, b);
    DropAppend(w, b, |w|);
  }

  /** A whitespace run in front of a mark is swallowed by the match at the mark. */
  lemma PunctuateSkipSpaces(w: string, at: string)
    requires AllSpaces(w) && at != [] && IsPunct(at[0])
    ensures Punctuate(w + at) == Punctuate(at)
  {
    if w != [] {
      var s := w + at;
      PunctNotSpace(at[0]);
      LeadingSpacesRun(w, at);
      assert s[0] == w[0] && s[|w|] == at[0] && s[|w|..] == at;
      PunctuateSpaceStep(s);
    } else {
      assert w + at == at;
    }
  }

  /** A whitespace run that ends at a mark is dropped. */
  lemma PunctuateSpaceStep(s: string)
    requires s != [] && IsSpace(s[0]) && LeadingSpaces(s) < |s| && IsPunct(s[LeadingSpaces(s)])
    ensures Punctuate(s) == Punctuate(s[LeadingSpaces(s)..])
  {
    SpaceNotPunct(s[0]);
  }

  // ---------------------------------------------------------------- stage 4

  /** Stage 4: every maximal whitespace run becomes a single space. */
  function Condense(s: string): (r: string)
    ensures forall c :: c in r ==> c == ' ' || (c in s && !IsSpace(c))
    ensures s != [] ==> r != [] && r[0] == (if IsSpace(s[0]) then ' ' else s[0])
    ensures NoDoubleSpace(r)
  {
    if s == [] then []
    else if IsSpace(s[0]) then
      var t := s[LeadingSpaces(s)..];
      var rest := Condense(t);
      assert forall c :: c in rest ==> c == ' ' || (c in s && !IsSpace(c)) by {
        forall c | c in rest && c != ' ' ensures c in s {
          var j :| 0 <= j < |t| && t[j] == c;
          assert s[LeadingSpaces(s) + j] == c;
        }
      }
      var r := [' '] + rest;
      assert NoDoubleSpace(r) by {
        forall i | 0 <= i < |r| - 1 ensures !(IsSpace(r[i]) && IsSpace(r[i + 1])) {
          if i > 0 { assert r[i] == rest[i - 1] && r[i + 1] == rest[i]; }
        }
      }
      r
    else
      var rest := Condense(s[1..]);
      var r := [s[0]] + rest;
      assert NoDoubleSpace(r) by {
        forall i | 0 <= i < |r| - 1 ensures !(IsSpace(r[i]) && IsSpace(r[i + 1])) {
          if i > 0 { assert r[i] == rest[i - 1] && r[i + 1] == rest[i]; }
        }
      }
      r
  }

  /** Stage 4 keeps the non-whitespace text, in order. */
  lemma {:induction false} CondenseKeepsText(s: string)
    ensures NonSpace(Condense(s)) == NonSpace(s)
    decreases |s|
  {
    if s != [] {
      if IsSpace(s[0]) {
        var t := s[LeadingSpaces(s)..];
        CondenseKeepsText(t);
        NonSpaceDropSpaces(s, LeadingSpaces(s));
        NonSpaceConsSpace(' ', Condense(t));
      } else {
        CondenseKeepsText(s[1..]);
        CopyKeepsText(s, Condense(s[1..]));
      }
    }
  }

  /**
   * Stage 4 replaces a whole whitespace run `w` by one space and treats the
   * text on either side of it on its own.
   */
  lemma {:induction false} CondenseRun(a: string, w: string, b: string)
    requires EndsInText(a) && w != [] && AllSpaces(w) && StartsWithText(b)
    ensures Condense(a + w + b) == Condense(a) + " " + Condense(b)
    decreases |a|
  {
    var x := w + b;
    AppendAssoc(a, w, b);
    if a == [] {
      CondenseRunAlone(w, b);
      assert a + x == x;
    } else {
      var k, front := CondenseFront(a, x);
      var r := a[k..];
      AppendAssoc(r, w, b);
      CondenseRun(r, w, b);
      var cr, cb := Condense(r), Condense(b);
      AppendAssoc(front, cr, " ");
      AppendAssoc(front, cr + " ", cb);
    }
  }

  /** A whitespace run in front of a text that does not start with whitespace becomes one space. */
  lemma CondenseRunAlone(w: string, b: string)
    requires w != [] && AllSpaces(w) && StartsWithText(b)
    ensures Condense(w + b) == " " + Condense(b)
  {
    LeadingSpacesRun(w, b);
    assert (w + b)[0] == w[0] && (w + b)[|w|..] == b;
  }

  /**
   * Stage 4's first step on a non-empty text `a` that does not end in
   * whitespace is decided inside `a`, whatever `x` follows: it emits `front`
   * and goes on after the first `k` characters.
   */
  lemma CondenseFront(a: string, x: string) returns (k: nat, front: string)
    requires a != [] && EndsInText(a)
    ensures 1 <= k <= |a| && EndsInText(a[k..])
    ensures Condense(a + x) == front + Condense(a[k..] + x)
    ensures Condense(a) == front + Condense(a[k..])
  {
    var s := a + x;
    assert s[0] == a[0];
    if IsSpace(a[0]) {
      k := LeadingSpaces(a);
      LeadingSpacesPrefix(a, x);
      front := [' '];
    } else {
      k := 1;
      front := [a[0]];
    }
    DropAppend(a, x, k);
    assert k < |a| ==> a[k..][|a[k..]| - 1] == a[|a| - 1];
  }

  /** Stage 4 keeps the spacing stage 3 established after each punctuation mark. */
  lemma {:induction false} CondenseKeepsPunctSpacing(s: string)
    requires PunctSpaced(s)
    ensures PunctSpaced(Condense(s))
    decreases |s|
  {
    if s != [] {
      var r := Condense(s);
      if IsSpace(s[0]) {
        var t := s[LeadingSpaces(s)..];
        SuffixPunctSpaced(s, LeadingSpaces(s));
        CondenseKeepsPunctSpacing(t);
        var rest := Condense(t);
        assert r == [' '] + rest;
        forall i | 0 <= i < |r| && IsPunct(r[i])
          ensures i + 1 < |r| && r[i + 1] == ' ' && (i + 2 < |r| ==> !IsSpace(r[i + 2]))
        {
          assert r[i] == rest[i - 1];
        }
      } else if IsPunct(s[0]) {
        // s = mark, one space, then a non-space (or the end)
        assert s[1] == ' ';
        var t := s[1..];
        assert LeadingSpaces(t) == 1;
        var u := s[2..];
        assert t[1..] == u;
        SuffixPunctSpaced(s, 2);
        CondenseKeepsPunctSpacing(u);
        var rest := Condense(u);
        assert Condense(t) == [' '] + rest;
        assert r == [s[0], ' '] + rest;
        forall i | 0 <= i < |r| && IsPunct(r[i])
          ensures i + 1 < |r| && r[i + 1] == ' ' && (i + 2 < |r| ==> !IsSpace(r[i + 2]))
        {
          if i >= 2 { assert r[i] == rest[i - 2]; }
          else if i == 0 && |r| > 2 { assert u != [] && !IsSpace(u[0]); }
        }
      } else {
        SuffixPunctSpaced(s, 1);
        CondenseKeepsPunctSpacing(s[1..]);
        var rest := Condense(s[1..]);
        assert r == [s[0]] + rest;
        forall i | 0 <= i < |r| && IsPunct(r[i])
          ensures i + 1 < |r| && r[i + 1] == ' ' && (i + 2 < |r| ==> !IsSpace(r[i + 2]))
        {
          assert r[i] == rest[i - 1];
        }
      }
    }
  }

  lemma SuffixPunctSpaced(s: string, k: nat)
    requires k <= |s| && PunctSpaced(s)
    ensures PunctSpaced(s[k..])
  {
    var t := s[k..];
    forall i | 0 <= i < |t| && IsPunct(t[i])
      ensures i + 1 < |t| && t[i + 1] == ' ' && (i + 2 < |t| ==> !IsSpace(t[i + 2]))
    {
      assert t[i] == s[k + i];
    }
  }

  /** Every whitespace character of `s` is the plain space. */
  predicate PlainSpaces(s: string) {
    forall i :: 0 <= i < |s| && IsSpace(s[i]) ==> s[i] == ' '
  }

  /** Stage 4 leaves alone a text whose only whitespace is isolated plain spaces. */
  lemma {:induction false} CondenseFixedPoint(s: string)
    requires NoDoubleSpace(s) && PlainSpaces(s)
    ensures Condense(s) == s
  {
    if s != [] {
      FixedPointStep(s);
      FixedPointTail(s);
      CondenseFixedPoint(s[1..]);
      assert [s[0]] + s[1..] == s;
    }
  }

  /** With isolated plain spaces, stage 4 copies the first character. */
  lemma FixedPointStep(s: string)
    requires s != [] && NoDoubleSpace(s) && PlainSpaces(s)
    ensures Condense(s) == [s[0]] + Condense(s[1..])
  {
    if IsSpace(s[0]) {
      assert s[0] == ' ';
      assert |s| > 1 ==> !IsSpace(s[1]);
      assert LeadingSpaces(s) == 1;
    }
  }

  /** The tail of a text with isolated plain spaces has them too. */
  lemma FixedPointTail(s: string)
    requires s != [] && NoDoubleSpace(s) && PlainSpaces(s)
    ensures NoDoubleSpace(s[1..]) && PlainSpaces(s[1..])
  {
    var t := s[1..];
    forall i | 0 <= i < |t| ensures t[i] == s[i + 1] { }
  }

  /** Stage 4 is idempotent. */
  lemma CondenseIdempotent(s: string)
    ensures Condense(Condense(s)) == Condense(s)
  {
    var r := Condense(s);
    assert PlainSpaces(r) by {
      forall i | 0 <= i < |r| && IsSpace(r[i]) ensures r[i] == ' ' {
        assert r[i] in r;
      }
    }
    CondenseFixedPoint(r);
  }

  // ---------------------------------------------------------------- pipeline

  /** The text after the four substitutions, before truncation. */
  function Condensed(content: string): string {
    Condense(Punctuate(Clean(StripMarkup(content))))
  }

  /**
   * `Post.summarize(content)`: the condensed text when it has at most 100
   * characters, otherwise its first 100 characters followed by "...".
   */
  function Summarize(content: string): (r: string)
    ensures |r| <= MaxLength + |Ellipsis|
    ensures |Condensed(content)| <= MaxLength ==> r == Condensed(content)
    ensures |Condensed(content)| > MaxLength ==>
              |r| == MaxLength + |Ellipsis| && r[..MaxLength] == Condensed(content)[..MaxLength]
              && r[MaxLength..] == Ellipsis
  {
    var condensed := Condensed(content);
    if |condensed| > MaxLength then condensed[..MaxLength] + Ellipsis else condensed
  }

  /** Stages 3 and 4 keep the text stage 2 left, in order: they only change the spacing. */
  lemma CondensedKeepsText(content: string)
    ensures NonSpace(Condensed(content)) == NonSpace(Clean(StripMarkup(content)))
  {
    var cleaned := Clean(StripMarkup(content));
    PunctuateKeepsText(cleaned);
    CondenseKeepsText(Punctuate(cleaned));
  }

  /**
   * The condensed text uses only letters, digits, `,.?!` and the space; has
   * no two spaces in a row; and has exactly one space after every mark.
   */
  lemma CondensedShape(content: string)
    ensures InAlphabet(Condensed(content))
    ensures NoDoubleSpace(Condensed(content))
    ensures PunctSpaced(Condensed(content))
  {
    var cleaned := Clean(StripMarkup(content));
    assert InAlphabet(cleaned);
    var normalized := Punctuate(cleaned);
    assert InAlphabet(normalized) by {
      forall i | 0 <= i < |normalized| ensures IsKept(normalized[i]) || normalized[i] == ' ' {
        assert normalized[i] in normalized;
      }
    }
    var condensed := Condense(normalized);
    assert InAlphabet(condensed) by {
      forall i | 0 <= i < |condensed| ensures IsKept(condensed[i]) || condensed[i] == ' ' {
        assert condensed[i] in condensed;
      }
    }
    CondenseKeepsPunctSpacing(normalized);
  }
}

/**
 * A worked case of the summarizer, stage by stage: the tags go, the marks
 * stay, and the mark at the end is still followed by a space, because the
 * summarizer never trims.
 */
module SummaryExamples {
  import opened Text
  import opened Summary

  lemma ClosingTagRemoved()
    ensures StripMarkup("</b>") == []
  {
    var s := "</b>";
    assert TagAt(s, 0);
    assert FirstClose(s[2..]) == 1;
  }

  lemma MarkBeforeTagKept()
    ensures StripMarkup("!</b>") == "!"
  {
    ClosingTagRemoved();
    assert !TagAt("!</b>", 0) && "!</b>"[1..] == "</b>";
  }

  lemma LettersBeforeTagKept()
    ensures StripMarkup("i!</b>") == "i!"
  {
    MarkBeforeTagKept();
    assert !TagAt("i!</b>", 0) && "i!</b>"[1..] == "!</b>";
  }

  lemma TextBeforeTagKept()
    ensures StripMarkup("Hi!</b>") == "Hi!"
  {
    LettersBeforeTagKept();
    assert !TagAt("Hi!</b>", 0) && "Hi!</b>"[1..] == "i!</b>";
  }

  /** At the start of `"<b>Hi!</b>"` a tag matches, and it ends at index 2. */
  lemma OpeningTagMatches()
    ensures TagAt("<b>Hi!</b>", 0) && FirstClose("<b>Hi!</b>"[2..]) == 0
  {
    var s := "<b>Hi!</b>";
    assert s[2] == '>';
  }

  lemma BothTagsRemoved()
    ensures StripMarkup("<b>Hi!</b>") == "Hi!"
  {
    OpeningTagMatches();
    TextBeforeTagKept();
    assert "<b>Hi!</b>"[3..] == "Hi!</b>";
  }

  /** `<>` has nothing between its brackets, so stage 1 keeps it. */
  lemma EmptyBracketsKept()
    ensures StripMarkup("<>") == "<>"
  {
    assert !TagAt("<>", 0) && "<>"[1..] == ">";
    assert !TagAt(">", 0) && ">"[1..] == [];
  }

  /** A `<` that no `>` closes is kept by stage 1. */
  lemma UnclosedTagKept()
    ensures StripMarkup("<b") == "<b"
  {
    assert !TagAt("<b", 0) && "<b"[1..] == "b";
    assert !TagAt("b", 0) && "b"[1..] == [];
  }

  lemma LoneMarkGetsSpace()
    ensures Punctuate("!") == "! "
  {
    assert LeadingSpaces("!"[1..]) == 0;
  }

  lemma LetterThenMark()
    ensures Punctuate("i!") == "i! "
  {
    LoneMarkGetsSpace();
    assert "i!"[1..] == "!";
  }

  lemma MarkGetsSpace()
    ensures Punctuate("Hi!") == "Hi! "
  {
    LetterThenMark();
    assert "Hi!"[1..] == "i!";
  }

  lemma LoneSpaceKept()
    ensures Condense(" ") == " "
  {
    assert LeadingSpaces(" ") == 1;
  }

  lemma MarkSpaceKept()
    ensures Condense("! ") == "! "
  {
    LoneSpaceKept();
    assert "! "[1..] == " ";
  }

  lemma LetterMarkSpaceKept()
    ensures Condense("i! ") == "i! "
  {
    MarkSpaceKept();
    assert "i! "[1..] == "! ";
  }

  lemma AlreadyCondensed()
    ensures Condense("Hi! ") == "Hi! "
  {
    LetterMarkSpaceKept();
    assert "Hi! "[1..] == "i! ";
  }

  lemma LettersAndMarkClean()
    ensures Clean("Hi!") == "Hi!"
  {
  }

  /** `summarize("<b>Hi!</b>")` is `"Hi! "`, trailing space included. */
  lemma TrailingSpaceKept()
    ensures Summarize("<b>Hi!</b>") == "Hi! "
  {
    calc {
      Condensed("<b>Hi!</b>");
    == { BothTagsRemoved(); }
      Condense(Punctuate(Clean("Hi!")));
    == { LettersAndMarkClean(); }
      Condense(Punctuate("Hi!"));
    == { MarkGetsSpace(); }
      Condense("Hi! ");
    == { AlreadyCondensed(); }
      "Hi! ";
    }
  }
}
