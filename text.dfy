/** The Python `str` operations the analysis relies on: `split()` with no
    separator, `strip()`, `replace(old, "")` and the ordering `<` on strings. */
module Text {

  /** Python's `str.isspace` for one character: the characters that `split()`
      separates on and `strip()` removes. */
  predicate IsSpace(c: char)
  {
    var n := c as int;
    (9 <= n <= 13) || (28 <= n <= 32) || n == 0x85 || n == 0xA0 || n == 0x1680
    || (0x2000 <= n <= 0x200A) || n == 0x2028 || n == 0x2029 || n == 0x202F
    || n == 0x205F || n == 0x3000
  }

  /** Position `i` of `s` is the first character of a whitespace-separated word. */
  predicate StartsWordAt(s: string, i: nat)
    requires i < |s|
  {
    !IsSpace(s[i]) && (i == 0 || IsSpace(s[i - 1]))
  }

  /** `len(s.split())`: the number of maximal runs of non-whitespace characters. */
  function WordCount(s: string): (n: nat)
    ensures 2 * n <= |s| + 1
    ensures s != [] && IsSpace(s[|s| - 1]) ==> 2 * n <= |s|
  {
    if s == [] then 0
    else WordCount(s[..|s| - 1]) + (if StartsWordAt(s, |s| - 1) then 1 else 0)
  }

  /** Joining two texts with a whitespace character adds their word counts. */
  lemma {:induction false} WordCountJoin(a: string, c: char, b: string)
    requires IsSpace(c)
    ensures WordCount(a + [c] + b) == WordCount(a) + WordCount(b)
    decreases |b|
  {
    var s := a + [c] + b;
    if b == [] {
      assert s[..|s| - 1] == a;
    } else {
      var b' := b[..|b| - 1];
      assert s[..|s| - 1] == a + [c] + b';
      WordCountJoin(a, c, b');
      assert StartsWordAt(s, |s| - 1) == StartsWordAt(b, |b| - 1);
    }
  }

  /** A non-empty text without whitespace is one word. */
  lemma {:induction false} WordCountToken(w: string)
    requires w != []
    requires forall i :: 0 <= i < |w| ==> !IsSpace(w[i])
    ensures WordCount(w) == 1
    decreases |w|
  {
    var u := w[..|w| - 1];
    if u == [] {
      assert StartsWordAt(w, 0);
    } else {
      WordCountToken(u);
      assert !StartsWordAt(w, |w| - 1);
    }
  }

  /** A text made only of whitespace has no words. */
  lemma {:induction false} WordCountBlank(s: string)
    requires forall i :: 0 <= i < |s| ==> IsSpace(s[i])
    ensures WordCount(s) == 0
    decreases |s|
  {
    if s != [] {
      WordCountBlank(s[..|s| - 1]);
    }
  }

  /** Python's `s.strip()` with no argument: leading and trailing
      whitespace removed. */
  function Strip(s: string): (r: string)
    ensures r == [] || (!IsSpace(r[0]) && !IsSpace(r[|r| - 1]))
    decreases |s|
  {
    if s != [] && IsSpace(s[0]) then Strip(s[1..])
    else if s != [] && IsSpace(s[|s| - 1]) then Strip(s[..|s| - 1])
    else s
  }

  /** `strip()` removes only whitespace: the non-whitespace characters of the
      result are exactly those of the input, and it adds no character. */
  lemma {:induction false} StripChars(s: string)
    ensures forall c :: c in Strip(s) ==> c in s
    ensures forall c :: !IsSpace(c) ==> (c in Strip(s) <==> c in s)
    decreases |s|
  {
    if s != [] && IsSpace(s[0]) {
      StripChars(s[1..]);
      assert s == [s[0]] + s[1..];
    } else if s != [] && IsSpace(s[|s| - 1]) {
      StripChars(s[..|s| - 1]);
      assert s == s[..|s| - 1] + [s[|s| - 1]];
    }
  }

  /** Everything of `s` before position `i` and from position `j` on is whitespace. */
  predicate SpaceOutside(s: string, i: nat, j: nat)
  {
    i <= j <= |s|
    && (forall k :: 0 <= k < i ==> IsSpace(s[k]))
    && (forall k :: j <= k < |s| ==> IsSpace(s[k]))
  }

  lemma SpaceOutsideFront(s: string, i: nat, j: nat)
    requires s != [] && IsSpace(s[0]) && SpaceOutside(s[1..], i, j)
    ensures SpaceOutside(s, i + 1, j + 1) && s[1..][i..j] == s[i + 1..j + 1]
  {
    forall k | 0 < k < i + 1 ensures IsSpace(s[k]) { assert s[k] == s[1..][k - 1]; }
    forall k | j + 1 <= k < |s| ensures IsSpace(s[k]) { assert s[k] == s[1..][k - 1]; }
  }

  lemma SpaceOutsideBack(s: string, i: nat, j: nat)
    requires s != [] && IsSpace(s[|s| - 1]) && SpaceOutside(s[..|s| - 1], i, j)
    ensures SpaceOutside(s, i, j) && s[..|s| - 1][i..j] == s[i..j]
  {
    var t := s[..|s| - 1];
    forall k | 0 <= k < i ensures IsSpace(s[k]) { assert s[k] == t[k]; }
    forall k | j <= k < |s| ensures IsSpace(s[k]) {
      if k < |t| { assert s[k] == t[k]; }
    }
  }

  /** The bounds of the slice `strip()` returns. */
  lemma {:induction false} StripBounds(s: string) returns (i: nat, j: nat)
    ensures SpaceOutside(s, i, j) && Strip(s) == s[i..j]
    decreases |s|
  {
    if s != [] && IsSpace(s[0]) {
      i, j := StripBounds(s[1..]);
      SpaceOutsideFront(s, i, j);
      i, j := i + 1, j + 1;
    } else if s != [] && IsSpace(s[|s| - 1]) {
      i, j := StripBounds(s[..|s| - 1]);
      SpaceOutsideBack(s, i, j);
    } else {
      i, j := 0, |s|;
    }
  }

  /** `strip()` returns the slice of the input between its leading and its
      trailing whitespace. */
  lemma StripSlice(s: string)
    ensures exists i, j :: 0 <= i <= j <= |s| && Strip(s) == s[i..j]
              && (forall k :: 0 <= k < i ==> IsSpace(s[k]))
              && (forall k :: j <= k < |s| ==> IsSpace(s[k]))
  {
    var i, j := StripBounds(s);
  }

  /** A text that neither starts nor ends with whitespace is left as it is by `strip()`. */
  lemma StripTrimmed(s: string)
    requires s == [] || (!IsSpace(s[0]) && !IsSpace(s[|s| - 1]))
    ensures Strip(s) == s
  {
  }

  /** `strip()` is idempotent. */
  lemma StripIdempotent(s: string)
    ensures Strip(Strip(s)) == Strip(s)
  {
    StripTrimmed(Strip(s));
  }

  /** `pat` occurs in `s` at position `i`. */
  predicate OccursAt(s: string, pat: string, i: nat)
  {
    i + |pat| <= |s| && s[i..i + |pat|] == pat
  }

  /** Python's `s.replace(pat, "")`: scanning from the left, every
      non-overlapping occurrence of `pat` is cut out. */
  function RemoveAll(s: string, pat: string): (r: string)
    requires pat != []
    ensures |r| <= |s|
    ensures forall c :: c in r ==> c in s
    decreases |s|
  {
    if OccursAt(s, pat, 0) then RemoveAll(s[|pat|..], pat)
    else if s == [] then []
    else [s[0]] + RemoveAll(s[1..], pat)
  }

  /** Removing a pattern that contains a character absent from `s` leaves `s` unchanged. */
  lemma {:induction false} RemoveAllAbsent(s: string, pat: string, c: char)
    requires pat != [] && c in pat && c !in s
    ensures RemoveAll(s, pat) == s
    decreases |s|
  {
    if OccursAt(s, pat, 0) {
      assert false;
    } else if s != [] {
      RemoveAllAbsent(s[1..], pat, c);
      assert s == [s[0]] + s[1..];
    }
  }

  /** Removing a pattern from `pat + b`, where `b` lacks one of the pattern's
      characters, gives back `b`. */
  lemma RemoveAllPrefix(pat: string, b: string, c: char)
    requires pat != [] && c in pat && c !in b
    ensures RemoveAll(pat + b, pat) == b
  {
    var s := pat + b;
    assert OccursAt(s, pat, 0) && s[|pat|..] == b;
    RemoveAllAbsent(b, pat, c);
  }

  /** Removing a pattern from `a + pat`, where `a` never holds the pattern's
      first character, gives back `a`. */
  lemma {:induction false} RemoveAllSuffix(a: string, pat: string)
    requires pat != [] && pat[0] !in a
    ensures RemoveAll(a + pat, pat) == a
    decreases |a|
  {
    var s := a + pat;
    if a == [] {
      assert s == pat && OccursAt(s, pat, 0);
      assert s[|pat|..] == [];
    } else {
      assert s[0] == a[0] != pat[0];
      assert !OccursAt(s, pat, 0);
      assert s[1..] == a[1..] + pat;
      RemoveAllSuffix(a[1..], pat);
    }
  }

  /** Removing a one-character pattern removes every occurrence of that
      character and keeps every other character. */
  lemma {:induction false} RemoveAllChar(s: string, c: char)
    ensures c !in RemoveAll(s, [c])
    ensures forall d :: d != c ==> (d in RemoveAll(s, [c]) <==> d in s)
    decreases |s|
  {
    if s != [] {
      RemoveAllChar(s[1..], c);
      assert s == [s[0]] + s[1..];
    }
  }

  /** Removing a one-character pattern works piecewise on a concatenation. */
  lemma {:induction false} RemoveAllCharConcat(a: string, b: string, c: char)
    ensures RemoveAll(a + b, [c]) == RemoveAll(a, [c]) + RemoveAll(b, [c])
    decreases |a|
  {
    if a == [] {
      assert a + b == b;
    } else {
      assert (a + b)[0] == a[0] && (a + b)[1..] == a[1..] + b;
      RemoveAllCharConcat(a[1..], b, c);
    }
  }

  /** Python's `a < b` on strings: code-point lexicographic order. */
  predicate LexLess(a: string, b: string)
    ensures |a| < |b| && a == b[..|a|] ==> LexLess(a, b)
    decreases |a|
  {
    if a == [] then b != []
    else if b == [] then false
    else if a[0] != b[0] then a[0] < b[0]
    else LexLess(a[1..], b[1..])
  }

  lemma {:induction false} LexLessIrreflexive(a: string)
    ensures !LexLess(a, a)
    decreases |a|
  {
    if a != [] {
      LexLessIrreflexive(a[1..]);
    }
  }

  lemma {:induction false} LexLessAsymmetric(a: string, b: string)
    requires LexLess(a, b)
    ensures !LexLess(b, a)
    decreases |a|
  {
    if a != [] && b != [] && a[0] == b[0] {
      LexLessAsymmetric(a[1..], b[1..]);
    }
  }

  lemma {:induction false} LexLessTotal(a: string, b: string)
    requires a != b
    ensures LexLess(a, b) || LexLess(b, a)
    decreases |a|
  {
    if a != [] && b != [] && a[0] == b[0] {
      assert a == [a[0]] + a[1..] && b == [b[0]] + b[1..];
      LexLessTotal(a[1..], b[1..]);
    }
  }

  lemma {:induction false} LexLessTransitive(a: string, b: string, c: string)
    requires LexLess(a, b) && LexLess(b, c)
    ensures LexLess(a, c)
    decreases |a|
  {
    if a != [] && b != [] && c != [] && a[0] == b[0] == c[0] {
      LexLessTransitive(a[1..], b[1..], c[1..]);
    }
  }

  /** Every finite non-empty set of strings has a least element. */
  lemma {:induction false} LexLeastExists(keys: set<string>)
    requires keys != {}
    ensures exists k :: k in keys && forall j :: j in keys && j != k ==> LexLess(k, j)
    decreases |keys|
  {
    var x :| x in keys;
    var rest := keys - {x};
    if rest == {} {
      assert forall j :: j in keys ==> j in rest || j == x;
    } else {
      LexLeastExists(rest);
      var m :| m in rest && forall j :: j in rest && j != m ==> LexLess(m, j);
      if LexLess(x, m) {
        forall j | j in keys && j != x
          ensures LexLess(x, j)
        {
          if j != m {
            LexLessTransitive(x, m, j);
          }
        }
      } else {
        LexLessTotal(x, m);
        assert forall j :: j in keys && j != m ==> LexLess(m, j);
      }
    }
  }
}
