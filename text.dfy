/** String operations of Python's `str` type that the formatter relies on:
    `strip()`, `split("\n")`, `sep.join(...)`, `startswith(...)` and
    `replace(old, "")`. Each is defined recursively, in the way the Python
    operation scans its input, and its defining properties are proved. */
module Text {

  /** Python's `str.isspace()` for one character: the characters `strip()`
      with no argument removes (Unicode White_Space as Python lists it). */
  predicate IsSpace(c: char) {
    ('\t' <= c <= '\r') || ('\U{1C}' <= c <= '\U{1F}') || c == ' '
    || c == '\U{85}' || c == '\U{A0}' || c == '\U{1680}'
    || ('\U{2000}' <= c <= '\U{200A}') || c == '\U{2028}' || c == '\U{2029}'
    || c == '\U{202F}' || c == '\U{205F}' || c == '\U{3000}'
  }

  predicate AllSpace(s: string) {
    forall i :: 0 <= i < |s| ==> IsSpace(s[i])
  }

  /** Neither end of `s` is whitespace (vacuously true of ""). */
  predicate Trimmed(s: string) {
    s == [] || (!IsSpace(s[0]) && !IsSpace(s[|s| - 1]))
  }

  predicate StartsWith(s: string, prefix: string) {
    |prefix| <= |s| && s[..|prefix|] == prefix
  }

  /** Number of occurrences of character `c` in `s`. */
  function CountChar(s: string, c: char): nat {
    if s == [] then 0 else (if s[0] == c then 1 else 0) + CountChar(s[1..], c)
  }

  /** `s.lstrip()`: drops the longest all-whitespace prefix. */
  function LStrip(s: string): string {
    if s != [] && IsSpace(s[0]) then LStrip(s[1..]) else s
  }

  /** `s.rstrip()`: drops the longest all-whitespace suffix. */
  function RStrip(s: string): string {
    if s != [] && IsSpace(s[|s| - 1]) then RStrip(s[..|s| - 1]) else s
  }

  /** `s.strip()`. */
  function Strip(s: string): string {
    RStrip(LStrip(s))
  }

  /** `lstrip()` keeps a suffix, cuts only whitespace and stops at the first
      non-whitespace character. */
  lemma {:induction false} LStripSpec(s: string)
    ensures var r := LStrip(s);
      |r| <= |s| && r == s[|s| - |r|..] && AllSpace(s[..|s| - |r|])
      && (r == [] || !IsSpace(r[0]))
  {
    if s != [] && IsSpace(s[0]) {
      LStripSpec(s[1..]);
      var r := LStrip(s);
      assert s[1..][|s| - 1 - |r|..] == s[|s| - |r|..];
      forall k | 0 <= k < |s| - |r| ensures IsSpace(s[k]) {
        if k > 0 { assert s[k] == s[1..][..|s| - 1 - |r|][k - 1]; }
      }
    }
  }

  /** `rstrip()` keeps a prefix, cuts only whitespace and stops at the last
      non-whitespace character. */
  lemma {:induction false} RStripSpec(s: string)
    ensures var r := RStrip(s);
      |r| <= |s| && r == s[..|r|] && AllSpace(s[|r|..])
      && (r == [] || !IsSpace(r[|r| - 1]))
  {
    if s != [] && IsSpace(s[|s| - 1]) {
      var t := s[..|s| - 1];
      RStripSpec(t);
      var r := RStrip(s);
      assert t[..|r|] == s[..|r|];
      forall k | |r| <= k < |s| ensures IsSpace(s[k]) {
        if k < |s| - 1 { assert s[k] == t[|r|..][k - |r|]; }
      }
    }
  }

  /** `strip()` returns the longest infix of `s` that neither starts nor
      ends with whitespace: what it cuts on either side is whitespace, and
      the result is empty exactly when `s` is all whitespace. */
  lemma StripSpec(s: string)
    ensures var r := Strip(s);
      Trimmed(r) && (r == [] <==> AllSpace(s)) &&
      exists i :: 0 <= i && i + |r| <= |s| && r == s[i..i + |r|]
                  && AllSpace(s[..i]) && AllSpace(s[i + |r|..])
  {
    var l := LStrip(s);
    var r := RStrip(l);
    LStripSpec(s);
    RStripSpec(l);
    var i := |s| - |l|;
    assert r == s[i..i + |r|];
    assert s[i + |r|..] == l[|r|..];
    if r == [] {
      assert l[|r|..] == l;
      assert s[..i] == s;
    } else {
      assert r[0] == l[0];
      forall k | 0 <= k < |s| && AllSpace(s) ensures IsSpace(s[k]) { }
    }
  }

  /** A string that is already trimmed is left alone by `strip()`. */
  lemma StripTrimmed(s: string)
    requires Trimmed(s)
    ensures Strip(s) == s
  {
  }

  /** `s.split("\n")`: the pieces of `s` between newlines, always at least one. */
  function Split(s: string): (r: seq<string>)
    ensures |r| == CountChar(s, '\n') + 1
  {
    if s == [] then [[]]
    else
      var rest := Split(s[1..]);
      if s[0] == '\n' then [[]] + rest
      else [[s[0]] + rest[0]] + rest[1..]
  }

  /** No piece of a split holds the separator. */
  lemma {:induction false} SplitPieces(s: string)
    ensures forall k :: 0 <= k < |Split(s)| ==> '\n' !in Split(s)[k]
  {
    if s != [] {
      SplitPieces(s[1..]);
      var rest := Split(s[1..]);
      if s[0] != '\n' {
        var r := Split(s);
        forall k | 0 <= k < |r| ensures '\n' !in r[k] {
          if k > 0 { assert r[k] == rest[k]; }
        }
      }
    }
  }

  /** `sep.join(xs)`. */
  function Join(xs: seq<string>, sep: string): string {
    if |xs| == 0 then []
    else if |xs| == 1 then xs[0]
    else xs[0] + sep + Join(xs[1..], sep)
  }

  /** Joining the pieces of a split with the separator gives back the text. */
  lemma {:induction false} JoinSplit(s: string)
    ensures Join(Split(s), "\n") == s
  {
    if s != [] {
      var rest := Split(s[1..]);
      JoinSplit(s[1..]);
      if s[0] == '\n' {
        assert Split(s) == [[]] + rest;
      } else {
        var r := Split(s);
        assert r == [[s[0]] + rest[0]] + rest[1..];
        if |rest| == 1 {
          assert Join(r, "\n") == [s[0]] + rest[0];
        } else {
          assert r[1..] == rest[1..];
          assert Join(rest, "\n") == rest[0] + "\n" + Join(rest[1..], "\n");
        }
      }
    }
  }

  /** Splitting at a newline splits the two sides independently. */
  lemma {:induction false} SplitConcat(a: string, b: string)
    ensures Split(a + "\n" + b) == Split(a) + Split(b)
  {
    if a == [] {
      assert a + "\n" + b == ['\n'] + b;
      SplitCons('\n', b);
    } else {
      SplitConcat(a[1..], b);
      SplitConcatStep(a[0], a[1..], b);
      assert a == [a[0]] + a[1..];
      assert a + "\n" + b == [a[0]] + (a[1..] + "\n" + b);
    }
  }

  /** The inductive step of `SplitConcat`: one more character in front. */
  lemma SplitConcatStep(c: char, a: string, b: string)
    requires Split(a + "\n" + b) == Split(a) + Split(b)
    ensures Split([c] + (a + "\n" + b)) == Split([c] + a) + Split(b)
  {
    SplitCons(c, a + "\n" + b);
    SplitCons(c, a);
    var r, q := Split(a), Split(b);
    if c == '\n' {
      PiecesAssoc([[]], r, q);
    } else {
      PiecesCons(c, r, q);
    }
  }

  lemma PiecesAssoc(p: seq<string>, r: seq<string>, q: seq<string>)
    ensures p + (r + q) == (p + r) + q
  {
  }

  /** Gluing a character to the first of `r + q` is gluing it to the first of `r`. */
  lemma PiecesCons(c: char, r: seq<string>, q: seq<string>)
    requires |r| > 0
    ensures [[c] + (r + q)[0]] + (r + q)[1..] == ([[c] + r[0]] + r[1..]) + q
  {
    assert (r + q)[0] == r[0] && (r + q)[1..] == r[1..] + q;
  }

  /** Splitting one character more: a newline starts a new empty piece,
      any other character joins the first piece. */
  lemma SplitCons(c: char, t: string)
    ensures Split([c] + t) == if c == '\n' then [[]] + Split(t)
                              else [[c] + Split(t)[0]] + Split(t)[1..]
  {
    assert ([c] + t)[0] == c && ([c] + t)[1..] == t;
  }

  /** A string without newlines is a single piece. */
  lemma {:induction false} SplitNoNewline(s: string)
    requires '\n' !in s
    ensures Split(s) == [s]
  {
    if s != [] {
      SplitNoNewline(s[1..]);
      assert [s[0]] + s[1..] == s;
    }
  }

  /** A trailing newline adds one empty last piece. */
  lemma SplitSnoc(s: string)
    ensures Split(s + "\n") == Split(s) + [[]]
  {
    SplitConcat(s, []);
    assert s + "\n" + [] == s + "\n";
  }

  /** Split undoes Join when no piece holds the separator (and there is at
      least one piece: `"".split("\n")` is `[""]`, not `[]`). */
  lemma {:induction false} SplitJoin(xs: seq<string>)
    requires |xs| > 0
    requires forall k :: 0 <= k < |xs| ==> '\n' !in xs[k]
    ensures Split(Join(xs, "\n")) == xs
  {
    SplitNoNewline(xs[0]);
    if |xs| > 1 {
      SplitJoin(xs[1..]);
      SplitConcat(xs[0], Join(xs[1..], "\n"));
      assert [xs[0]] + xs[1..] == xs;
    }
  }

  /** `s.replace(pat, "")` for a non-empty `pat`: scanning left to right,
      each occurrence found is deleted and the scan resumes after it, so
      occurrences never overlap. */
  function RemoveAll(s: string, pat: string): string
    requires |pat| > 0
    decreases |s|
  {
    if |s| < |pat| then s
    else if s[..|pat|] == pat then RemoveAll(s[|pat|..], pat)
    else [s[0]] + RemoveAll(s[1..], pat)
  }

  /** Nothing is removed when the first character of the pattern never occurs. */
  lemma {:induction false} RemoveAllAbsent(s: string, pat: string)
    requires |pat| > 0 && pat[0] !in s
    ensures RemoveAll(s, pat) == s
  {
    if |s| >= |pat| {
      assert s[..|pat|][0] == s[0];
      RemoveAllAbsent(s[1..], pat);
      assert [s[0]] + s[1..] == s;
    }
  }

  /** Removing a pattern from `pat + t` drops that leading occurrence. */
  lemma RemoveAllLeading(pat: string, t: string)
    requires |pat| > 0
    ensures RemoveAll(pat + t, pat) == RemoveAll(t, pat)
  {
    assert (pat + t)[..|pat|] == pat;
    assert (pat + t)[|pat|..] == t;
  }

  /** A prefix free of the pattern's first character is kept as is, and the
      scan resumes right after it. */
  lemma {:induction false} RemoveAllSkip(a: string, b: string, pat: string)
    requires |pat| > 0 && pat[0] !in a
    ensures RemoveAll(a + b, pat) == a + RemoveAll(b, pat)
  {
    if a != [] {
      var s := a + b;
      assert s[0] == a[0];
      if |s| >= |pat| {
        assert s[..|pat|][0] == a[0];
      }
      RemoveAllSkip(a[1..], b, pat);
      assert s[1..] == a[1..] + b;
      assert [a[0]] + a[1..] == a;
    } else {
      assert a + b == b;
    }
  }

  /** No two consecutive asterisks, that is, no `"**"` anywhere. */
  predicate NoDoubleStar(s: string) {
    forall i :: 0 <= i < |s| - 1 ==> !(s[i] == '*' && s[i + 1] == '*')
  }

  /** The characters of `s` other than `'*'`, in order. */
  function NonStars(s: string): string {
    if s == [] then [] else (if s[0] == '*' then [] else [s[0]]) + NonStars(s[1..])
  }

  /** After `replace("**", "")` no `"**"` is left, even from odd runs such as
      `"***"`, whose last asterisk survives alone. */
  lemma {:induction false} RemoveDoubleStarLeavesNone(s: string)
    ensures NoDoubleStar(RemoveAll(s, "**"))
    ensures s != [] && s[0] != '*' ==> RemoveAll(s, "**") == [s[0]] + RemoveAll(s[1..], "**")
    decreases |s|
  {
    var r := RemoveAll(s, "**");
    if |s| >= 2 {
      if s[..2] == "**" {
        RemoveDoubleStarLeavesNone(s[2..]);
      } else {
        RemoveDoubleStarLeavesNone(s[1..]);
        var t := RemoveAll(s[1..], "**");
        assert r == [s[0]] + t;
        if s[0] == '*' {
          // the next character is not an asterisk, and it is emitted next
          assert s[1] != '*';
          assert s[1..] != [] && s[1..][0] != '*';
          assert t[0] == s[1];
        }
        forall i | 0 <= i < |r| - 1 ensures !(r[i] == '*' && r[i + 1] == '*') {
          if i > 0 { assert r[i] == t[i - 1] && r[i + 1] == t[i]; }
        }
      }
    }
  }

  /** `replace("**", "")` deletes asterisks only: every other character is
      kept, in order. */
  lemma {:induction false} RemoveDoubleStarKeepsOthers(s: string)
    ensures NonStars(RemoveAll(s, "**")) == NonStars(s)
    decreases |s|
  {
    if |s| >= 2 {
      if s[..2] == "**" {
        RemoveDoubleStarKeepsOthers(s[2..]);
        assert s[1..][1..] == s[2..];
        assert s[0] == '*' && s[1] == '*';
      } else {
        RemoveDoubleStarKeepsOthers(s[1..]);
        assert RemoveAll(s, "**") == [s[0]] + RemoveAll(s[1..], "**");
        assert ([s[0]] + RemoveAll(s[1..], "**"))[1..] == RemoveAll(s[1..], "**");
      }
    }
  }

  /** A string with no `"**"` is a fixed point of `replace("**", "")`. */
  lemma {:induction false} RemoveDoubleStarFixed(s: string)
    requires NoDoubleStar(s)
    ensures RemoveAll(s, "**") == s
    decreases |s|
  {
    if |s| >= 2 {
      assert s[..2] != "**" by { assert !(s[0] == '*' && s[1] == '*'); }
      RemoveDoubleStarFixed(s[1..]);
      assert [s[0]] + s[1..] == s;
    }
  }

  /** Applying `replace("**", "")` twice is the same as once. */
  lemma RemoveDoubleStarIdempotent(s: string)
    ensures RemoveAll(RemoveAll(s, "**"), "**") == RemoveAll(s, "**")
  {
    RemoveDoubleStarLeavesNone(s);
    RemoveDoubleStarFixed(RemoveAll(s, "**"));
  }
}
