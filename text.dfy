/**
 * The few JavaScript string operations the boundary cleaner relies on:
 * `trim`, `split(",")`, `split(/\s+/)`, `replace(pattern, "")` for a plain
 * string pattern (first occurrence only) and `replace(/\(|\)/g, "")`.
 * A `string` here is a sequence of characters; every separator and
 * whitespace character these operations look for is a single character
 * in both Dafny's strings and JavaScript's UTF-16 ones.
 */
module Text {

  /** ECMAScript WhiteSpace and LineTerminator code points: exactly what
      `String.prototype.trim` strips and what the regular-expression class
      `\s` matches. */
  predicate IsWhite(c: char) {
    var k := c as int;
    k == 0x09 || k == 0x0A || k == 0x0B || k == 0x0C || k == 0x0D || k == 0x20
    || k == 0xA0 || k == 0x1680 || (0x2000 <= k <= 0x200A)
    || k == 0x2028 || k == 0x2029 || k == 0x202F || k == 0x205F
    || k == 0x3000 || k == 0xFEFF
  }

  predicate NoWhite(s: string) {
    forall i :: 0 <= i < |s| ==> !IsWhite(s[i])
  }

  predicate AllWhite(s: string) {
    forall i :: 0 <= i < |s| ==> IsWhite(s[i])
  }

  /** Neither starts nor ends with whitespace. */
  predicate Trimmed(s: string) {
    s == [] || (!IsWhite(s[0]) && !IsWhite(s[|s| - 1]))
  }

  // ---------------------------------------------------------------------
  // trim

  /** Drops the leading whitespace: the result is the suffix of `s` that
      starts at its first non-white character. */
  function TrimStart(s: string): (r: string)
    ensures |r| <= |s| && r == s[|s| - |r|..]
    ensures AllWhite(s[..|s| - |r|])
    ensures r == [] || !IsWhite(r[0])
  {
    if s != [] && IsWhite(s[0]) then TrimStart(s[1..]) else s
  }

  /** Drops the trailing whitespace: the result is the prefix of `s` that
      ends at its last non-white character. */
  function TrimEnd(s: string): (r: string)
    ensures |r| <= |s| && r == s[..|r|]
    ensures AllWhite(s[|r|..])
    ensures r == [] || !IsWhite(r[|r| - 1])
  {
    if s != [] && IsWhite(s[|s| - 1]) then TrimEnd(s[..|s| - 1]) else s
  }

  /** `String.prototype.trim`. */
  function Trim(s: string): (r: string)
    ensures Trimmed(r)
    ensures |r| <= |s|
  {
    var t := TrimStart(s);
    var r := TrimEnd(t);
    assert r != [] ==> r[0] == t[0];
    r
  }

  /** Trimming a string padded with whitespace on both sides gives back the
      trimmed string inside; in particular trimming is idempotent. */
  lemma {:induction false} TrimPadded(a: string, s: string, b: string)
    requires AllWhite(a) && AllWhite(b) && Trimmed(s)
    ensures Trim(a + s + b) == s
  {
    var t := s + b;
    assert a + s + b == a + t;
    if s == [] {
      assert t == b;
      TrimStartPadded(a, t);
      TrimStartAllWhite(b);
      assert TrimStart(a + t) == [];
    } else {
      assert t[0] == s[0];
      TrimStartPadded(a, t);
      TrimEndPadded(s, b);
      assert TrimStart(a + t) == t;
    }
  }

  lemma {:induction false} TrimStartPadded(a: string, t: string)
    requires AllWhite(a) && (t == [] || !IsWhite(t[0]) || AllWhite(t))
    ensures TrimStart(a + t) == TrimStart(t)
  {
    if a != [] {
      assert (a + t)[1..] == a[1..] + t;
      TrimStartPadded(a[1..], t);
    }
  }

  lemma {:induction false} TrimStartAllWhite(b: string)
    requires AllWhite(b)
    ensures TrimStart(b) == [] && TrimEnd([]) == []
  {
    if b != [] {
      TrimStartAllWhite(b[1..]);
    }
  }

  lemma {:induction false} TrimEndPadded(s: string, b: string)
    requires s != [] && !IsWhite(s[0]) && !IsWhite(s[|s| - 1]) && AllWhite(b)
    ensures TrimStart(s + b) == s + b && TrimEnd(s + b) == s
  {
    if b != [] {
      assert (s + b)[..|s + b| - 1] == s + b[..|b| - 1];
      TrimEndPadded(s, b[..|b| - 1]);
    }
  }

  // ---------------------------------------------------------------------
  // split on a separator character, and its inverse

  /** `Array.prototype.join` with a one-character separator. */
  function Join(ps: seq<string>, sep: char): string
  {
    if |ps| == 0 then []
    else if |ps| == 1 then ps[0]
    else ps[0] + [sep] + Join(ps[1..], sep)
  }

  /** `String.prototype.split` on a one-character separator. */
  function Split(s: string, sep: char): (r: seq<string>)
    ensures |r| >= 1
  {
    if s == [] then [[]]
    else
      var rest := Split(s[1..], sep);
      if s[0] == sep then [[]] + rest
      else [[s[0]] + rest[0]] + rest[1..]
  }

  /** Splitting gives one more piece than there are separators, and no
      piece holds the separator. */
  lemma {:induction false} SplitPieces(s: string, sep: char)
    ensures |Split(s, sep)| == multiset(s)[sep] + 1
    ensures forall i :: 0 <= i < |Split(s, sep)| ==> sep !in Split(s, sep)[i]
  {
    if s != [] {
      SplitPieces(s[1..], sep);
      var rest := Split(s[1..], sep);
      var r := Split(s, sep);
      assert s == [s[0]] + s[1..];
      assert multiset(s) == multiset([s[0]]) + multiset(s[1..]);
      if s[0] == sep {
        assert r[1..] == rest;
      } else {
        assert r[1..] == rest[1..];
        assert sep !in r[0] by {
          assert r[0][1..] == rest[0];
        }
      }
    }
  }

  /** Joining the pieces back with the separator gives the string split. */
  lemma {:induction false} JoinSplit(s: string, sep: char)
    ensures Join(Split(s, sep), sep) == s
  {
    if s != [] {
      var rest := Split(s[1..], sep);
      JoinSplit(s[1..], sep);
      assert s == [s[0]] + s[1..];
      if s[0] == sep {
        var r := [[]] + rest;
        assert r[1..] == rest;
      } else {
        var r := [[s[0]] + rest[0]] + rest[1..];
        assert r[1..] == rest[1..];
        if |rest| > 1 {
          calc {
            Join(r, sep);
            r[0] + [sep] + Join(rest[1..], sep);
            [s[0]] + (rest[0] + [sep] + Join(rest[1..], sep));
            [s[0]] + Join(rest, sep);
          }
        }
      }
    }
  }

  /** Splitting undoes joining, as long as no piece holds the separator. */
  lemma {:induction false} SplitJoin(ps: seq<string>, sep: char)
    requires |ps| >= 1
    requires forall i :: 0 <= i < |ps| ==> sep !in ps[i]
    ensures Split(Join(ps, sep), sep) == ps
  {
    if |ps| == 1 {
      SplitNoSeparator(ps[0], sep);
    } else {
      SplitJoin(ps[1..], sep);
      SplitAfterPiece(ps[0], sep, Join(ps[1..], sep));
      assert ps == [ps[0]] + ps[1..];
    }
  }

  lemma {:induction false} SplitNoSeparator(a: string, sep: char)
    requires sep !in a
    ensures Split(a, sep) == [a]
  {
    if a != [] {
      SplitNoSeparator(a[1..], sep);
      assert [a[0]] + a[1..] == a;
    }
  }

  lemma {:induction false} SplitAfterPiece(a: string, sep: char, t: string)
    requires sep !in a
    ensures Split(a + [sep] + t, sep) == [a] + Split(t, sep)
  {
    if a == [] {
      assert a + [sep] + t == [sep] + t;
      assert ([sep] + t)[1..] == t;
    } else {
      assert (a + [sep] + t)[1..] == a[1..] + [sep] + t;
      SplitAfterPiece(a[1..], sep, t);
      assert [a[0]] + a[1..] == a;
    }
  }

  // ---------------------------------------------------------------------
  // split on runs of whitespace

  /** `String.prototype.split(/\s+/)`: the pieces between maximal runs of
      whitespace. There is always at least one piece; `SplitWhitePieces`
      states what the pieces look like. */
  function SplitWhite(s: string): (r: seq<string>)
    ensures |r| >= 1
  {
    if s == [] then [[]]
    else if IsWhite(s[0]) then
      if |s| > 1 && IsWhite(s[1]) then SplitWhite(s[1..])
      else [[]] + SplitWhite(s[1..])
    else
      var rest := SplitWhite(s[1..]);
      [[s[0]] + rest[0]] + rest[1..]
  }

  /** No piece holds whitespace and no interior piece is empty; a leading
      (trailing) run of whitespace gives an empty first (last) piece, and
      only then is that piece empty. */
  lemma {:induction false} SplitWhitePieces(s: string)
    ensures forall i :: 0 <= i < |SplitWhite(s)| ==> NoWhite(SplitWhite(s)[i])
    ensures forall i :: 0 < i < |SplitWhite(s)| - 1 ==> SplitWhite(s)[i] != []
    ensures s != [] && !IsWhite(s[0]) ==> SplitWhite(s)[0] != []
    ensures s != [] && !IsWhite(s[|s| - 1]) ==> SplitWhite(s)[|SplitWhite(s)| - 1] != []
  {
    if s != [] {
      var rest := SplitWhite(s[1..]);
      SplitWhitePieces(s[1..]);
      if |s| > 1 {
        assert s[1..][|s| - 2] == s[|s| - 1];
      }
      if IsWhite(s[0]) {
        if |s| > 1 && IsWhite(s[1]) {
        } else {
          var r := [[]] + rest;
          assert r[1..] == rest;
        }
      } else {
        var r := [[s[0]] + rest[0]] + rest[1..];
        assert NoWhite(r[0]) by {
          assert r[0][1..] == rest[0];
        }
      }
    }
  }

  /** A string without whitespace is a single token. */
  lemma {:induction false} SplitWhiteToken(a: string)
    requires NoWhite(a)
    ensures SplitWhite(a) == [a]
  {
    if a != [] {
      SplitWhiteToken(a[1..]);
      assert [a[0]] + a[1..] == a;
    }
  }

  /** A token followed by a run of whitespace is split off as the first
      piece, whatever comes after the run (as long as the run is maximal). */
  lemma {:induction false} SplitWhiteAfterToken(a: string, w: string, t: string)
    requires NoWhite(a) && w != [] && AllWhite(w)
    requires t == [] || !IsWhite(t[0])
    ensures SplitWhite(a + w + t) == [a] + SplitWhite(t)
  {
    if a == [] {
      assert a + w + t == w + t;
      SplitWhiteRun(w, t);
    } else {
      assert (a + w + t)[1..] == a[1..] + w + t;
      SplitWhiteAfterToken(a[1..], w, t);
      assert [a[0]] + a[1..] == a;
    }
  }

  lemma {:induction false} SplitWhiteRun(w: string, t: string)
    requires w != [] && AllWhite(w)
    requires t == [] || !IsWhite(t[0])
    ensures SplitWhite(w + t) == [[]] + SplitWhite(t)
  {
    assert (w + t)[1..] == w[1..] + t;
    if |w| > 1 {
      SplitWhiteRun(w[1..], t);
    }
  }

  // ---------------------------------------------------------------------
  // replace

  predicate OccursAt(s: string, pat: string, i: nat) {
    i + |pat| <= |s| && s[i..i + |pat|] == pat
  }

  /** `s.replace(pat, "")` for a plain string pattern: removes the first
      occurrence of `pat`, if any. */
  function RemoveFirst(s: string, pat: string): (r: string)
    ensures |r| == |s| || |r| == |s| - |pat|
  {
    if |s| < |pat| then s
    else if s[..|pat|] == pat then s[|pat|..]
    else [s[0]] + RemoveFirst(s[1..], pat)
  }

  /** An occurrence in the tail is an occurrence one further on. */
  lemma OccursShift(s: string, pat: string, i: nat)
    requires |s| > 0
    ensures OccursAt(s[1..], pat, i) <==> OccursAt(s, pat, i + 1)
  {
    if i + 1 + |pat| <= |s| {
      assert s[1..][i..i + |pat|] == s[i + 1..i + 1 + |pat|];
    }
  }

  /** Where `pat` first occurs at `k`, exactly that occurrence is cut out. */
  lemma {:induction false} RemoveFirstAt(s: string, pat: string, k: nat)
    requires OccursAt(s, pat, k)
    requires forall i :: 0 <= i < k ==> !OccursAt(s, pat, i)
    ensures RemoveFirst(s, pat) == s[..k] + s[k + |pat|..]
  {
    if k == 0 {
      assert s[..|pat|] == pat;
    } else {
      assert !OccursAt(s, pat, 0);
      forall i | 0 <= i < k - 1
        ensures !OccursAt(s[1..], pat, i)
      {
        OccursShift(s, pat, i);
      }
      OccursShift(s, pat, k - 1);
      RemoveFirstAt(s[1..], pat, k - 1);
      assert s[..k] == [s[0]] + s[1..][..k - 1];
      assert s[1..][k - 1 + |pat|..] == s[k + |pat|..];
    }
  }

  /** Where `pat` does not occur, nothing is removed. */
  lemma {:induction false} RemoveFirstAbsent(s: string, pat: string)
    requires forall i :: 0 <= i <= |s| ==> !OccursAt(s, pat, i)
    ensures RemoveFirst(s, pat) == s
  {
    if |s| >= |pat| {
      assert !OccursAt(s, pat, 0);
      forall i | 0 <= i <= |s| - 1
        ensures !OccursAt(s[1..], pat, i)
      {
        OccursShift(s, pat, i);
      }
      RemoveFirstAbsent(s[1..], pat);
      assert [s[0]] + s[1..] == s;
    }
  }

  predicate IsParen(c: char) {
    c == '(' || c == ')'
  }

  /** `s.replace(/\(|\)/g, "")`: no parenthesis is left, and
      `RemoveParensCounts` shows every other character keeps its number of
      occurrences. */
  function RemoveParens(s: string): (r: string)
    ensures forall i :: 0 <= i < |r| ==> !IsParen(r[i])
    ensures |r| <= |s|
  {
    if s == [] then []
    else if IsParen(s[0]) then RemoveParens(s[1..])
    else [s[0]] + RemoveParens(s[1..])
  }

  lemma {:induction false} RemoveParensCounts(s: string)
    ensures forall c :: !IsParen(c) ==> multiset(RemoveParens(s))[c] == multiset(s)[c]
  {
    if s != [] {
      RemoveParensCounts(s[1..]);
      var rest := RemoveParens(s[1..]);
      assert s == [s[0]] + s[1..];
      assert multiset(s) == multiset([s[0]]) + multiset(s[1..]);
      if !IsParen(s[0]) {
        var r := [s[0]] + rest;
        assert multiset(r) == multiset([s[0]]) + multiset(rest);
      }
    }
  }

  /** Removing parentheses works piecewise. */
  lemma {:induction false} RemoveParensConcat(a: string, b: string)
    ensures RemoveParens(a + b) == RemoveParens(a) + RemoveParens(b)
  {
    if a == [] {
      assert a + b == b;
    } else {
      assert (a + b)[0] == a[0];
      assert (a + b)[1..] == a[1..] + b;
      RemoveParensConcat(a[1..], b);
      if !IsParen(a[0]) {
        calc {
          RemoveParens(a + b);
          [a[0]] + RemoveParens(a[1..] + b);
          [a[0]] + (RemoveParens(a[1..]) + RemoveParens(b));
          ([a[0]] + RemoveParens(a[1..])) + RemoveParens(b);
        }
      }
    }
  }

  /** A string without parentheses is left as it is. */
  lemma {:induction false} RemoveParensNone(s: string)
    requires forall i :: 0 <= i < |s| ==> !IsParen(s[i])
    ensures RemoveParens(s) == s
  {
    if s != [] {
      RemoveParensNone(s[1..]);
      assert [s[0]] + s[1..] == s;
    }
  }
}
