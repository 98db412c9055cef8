/** The JavaScript string built-ins the todo page relies on: `toLowerCase`,
    `includes`, `trim` and the relational operators on strings. A string is
    a sequence of characters. */
module JsStrings {

  predicate IsUpper(c: char) { 'A' <= c <= 'Z' }

  /** `toLowerCase` on one character, for the ASCII letters only. */
  function LowerChar(c: char): (d: char)
    ensures !IsUpper(d)
    ensures IsUpper(c) ==> 'a' <= d <= 'z' && d as int - c as int == 'a' as int - 'A' as int
    ensures !IsUpper(c) ==> d == c
  {
    if IsUpper(c) then (c as int + ('a' as int - 'A' as int)) as char else c
  }

  /** `String.prototype.toLowerCase`, character by character. */
  function ToLower(s: string): (r: string)
    ensures |r| == |s|
    ensures forall i :: 0 <= i < |s| ==> r[i] == LowerChar(s[i])
  {
    if s == [] then [] else [LowerChar(s[0])] + ToLower(s[1..])
  }

  /** Lowering a string twice is the same as lowering it once. */
  lemma ToLowerIdempotent(s: string)
    ensures ToLower(ToLower(s)) == ToLower(s)
  {
    var once := ToLower(s);
    var twice := ToLower(once);
    assert |twice| == |once|;
    forall i | 0 <= i < |once| ensures twice[i] == once[i] {
      assert !IsUpper(once[i]);
    }
  }

  /** `needle` occurs in `hay` starting at index `i`. */
  ghost predicate OccursAt(hay: string, needle: string, i: int)
  {
    0 <= i && i + |needle| <= |hay| && hay[i..i + |needle|] == needle
  }

  /** A slice of `s[1..]` is the slice of `s` one position further on. */
  lemma SliceOfTail(s: string, i: int, j: int)
    requires 1 <= i <= j <= |s|
    ensures s[1..][i - 1..j - 1] == s[i..j]
  {
  }

  /** `String.prototype.includes`: does `needle` occur anywhere in `hay`? */
  function Includes(hay: string, needle: string): (b: bool)
    ensures b <==> exists i :: OccursAt(hay, needle, i)
    decreases |hay|
  {
    if |needle| > |hay| then
      assert forall i :: !OccursAt(hay, needle, i);
      false
    else if hay[..|needle|] == needle then
      assert OccursAt(hay, needle, 0);
      true
    else
      var rest := Includes(hay[1..], needle);
      assert rest ==> exists i :: OccursAt(hay, needle, i) by {
        if rest {
          var j :| OccursAt(hay[1..], needle, j);
          SliceOfTail(hay, j + 1, j + 1 + |needle|);
          assert OccursAt(hay, needle, j + 1);
        }
      }
      assert (exists i :: OccursAt(hay, needle, i)) ==> rest by {
        if exists i :: OccursAt(hay, needle, i) {
          var i :| OccursAt(hay, needle, i);
          assert i != 0;
          SliceOfTail(hay, i, i + |needle|);
          assert OccursAt(hay[1..], needle, i - 1);
        }
      }
      rest
  }

  /** The characters `trim` removes: ECMAScript WhiteSpace and LineTerminator. */
  predicate IsWhitespace(c: char)
  {
    c == '\t' || c == '\n' || c == '\U{B}' || c == '\U{C}' || c == '\r' || c == ' '
    || c == '\U{A0}' || c == '\U{1680}' || ('\U{2000}' <= c <= '\U{200A}')
    || c == '\U{2028}' || c == '\U{2029}' || c == '\U{202F}' || c == '\U{205F}'
    || c == '\U{3000}' || c == '\U{FEFF}'
  }

  /** `s` with its leading whitespace removed. */
  function TrimStart(s: string): (r: string)
    ensures |r| <= |s| && r == s[|s| - |r|..]
    ensures forall i :: 0 <= i < |s| - |r| ==> IsWhitespace(s[i])
    ensures r == [] || !IsWhitespace(r[0])
  {
    if s != [] && IsWhitespace(s[0]) then TrimStart(s[1..]) else s
  }

  /** `s` with its trailing whitespace removed. */
  function TrimEnd(s: string): (r: string)
    ensures |r| <= |s| && r == s[..|r|]
    ensures forall i :: |r| <= i < |s| ==> IsWhitespace(s[i])
    ensures r == [] || !IsWhitespace(r[|r| - 1])
  {
    if s != [] && IsWhitespace(s[|s| - 1]) then TrimEnd(s[..|s| - 1]) else s
  }

  /** `r` is what is left of `s` once the whitespace before index `k` and
      after `r` is cut away, and `r` itself neither starts nor ends with
      whitespace. */
  ghost predicate TrimmedFrom(s: string, r: string, k: int)
  {
    && 0 <= k && k + |r| <= |s| && s[k..k + |r|] == r
    && (forall i :: 0 <= i < k ==> IsWhitespace(s[i]))
    && (forall i :: k + |r| <= i < |s| ==> IsWhitespace(s[i]))
    && (r == [] || (!IsWhitespace(r[0]) && !IsWhitespace(r[|r| - 1])))
  }

  lemma PrefixOfSuffix(s: string, k: nat, m: nat)
    requires k + m <= |s|
    ensures s[k..][..m] == s[k..k + m]
  {
  }

  /** Whitespace cut from the front of a piece that is already trimmed at
      its own front only adds to what lies before it. */
  lemma TrimmedAfterPrefix(s: string, k: nat, r: string)
    requires k <= |s| && forall i :: 0 <= i < k ==> IsWhitespace(s[i])
    requires TrimmedFrom(s[k..], r, 0)
    ensures TrimmedFrom(s, r, k)
  {
    PrefixOfSuffix(s, k, |r|);
    forall i | k + |r| <= i < |s| ensures IsWhitespace(s[i]) {
      assert s[i] == s[k..][i - k];
    }
  }

  /** Cutting the trailing whitespace from a string that does not start
      with whitespace leaves the trimmed piece at its very front. */
  lemma TrimEndFromFront(f: string)
    requires f == [] || !IsWhitespace(f[0])
    ensures TrimmedFrom(f, TrimEnd(f), 0)
  {
    var r := TrimEnd(f);
    assert f[0..0 + |r|] == r;
    assert forall i :: 0 + |r| <= i < |f| ==> IsWhitespace(f[i]);
    if r != [] {
      assert r[0] == f[0];
    }
  }

  /** Cutting the leading, then the trailing whitespace leaves the piece of
      `s` that starts where the leading whitespace ends. */
  lemma TrimStartThenEnd(s: string)
    ensures TrimmedFrom(s, TrimEnd(TrimStart(s)), |s| - |TrimStart(s)|)
  {
    var front := TrimStart(s);
    var k := |s| - |front|;
    assert front == s[k..];
    TrimEndFromFront(front);
    TrimmedAfterPrefix(s, k, TrimEnd(front));
  }

  /** `String.prototype.trim`: the piece of `s` left between its leading
      and its trailing whitespace. */
  function Trim(s: string): (r: string)
    ensures exists k :: TrimmedFrom(s, r, k)
  {
    TrimStartThenEnd(s);
    TrimEnd(TrimStart(s))
  }

  /** `trim` gives the empty string exactly when `s` is all whitespace. */
  lemma TrimBlankIff(s: string)
    ensures Trim(s) == [] <==> forall i :: 0 <= i < |s| ==> IsWhitespace(s[i])
  {
    var r := Trim(s);
    var k :| TrimmedFrom(s, r, k);
    if r != [] {
      assert s[k] == r[0];
    }
  }

  /** The relational operator `a < b` on strings: code-unit-wise
      lexicographic order, a proper prefix being smaller. */
  predicate Less(a: string, b: string)
  {
    if b == [] then false
    else if a == [] then true
    else if a[0] != b[0] then a[0] < b[0]
    else Less(a[1..], b[1..])
  }

  /** `b` is longer than a common prefix `a[..k]` of both strings, and `a`
      either ends there or has the smaller character at `k`. */
  ghost predicate FirstDifference(a: string, b: string, k: int)
  {
    0 <= k < |b| && k <= |a| && a[..k] == b[..k] && (k == |a| || a[k] < b[k])
  }

  /** `a < b` is lexicographic order: at the first position where the
      strings part, `a` has run out or has the smaller character. */
  lemma {:induction false} LessIsLexicographic(a: string, b: string)
    ensures Less(a, b) <==> exists k :: FirstDifference(a, b, k)
  {
    if b == [] {
    } else if a == [] {
      assert FirstDifference(a, b, 0);
    } else if a[0] != b[0] {
      if a[0] < b[0] {
        assert FirstDifference(a, b, 0);
      }
    } else {
      LessIsLexicographic(a[1..], b[1..]);
      forall k | FirstDifference(a[1..], b[1..], k) ensures FirstDifference(a, b, k + 1) {
        assert a[..k + 1] == [a[0]] + a[1..][..k] && b[..k + 1] == [b[0]] + b[1..][..k];
      }
      forall k | FirstDifference(a, b, k) ensures k > 0 && FirstDifference(a[1..], b[1..], k - 1) {
        assert k > 0;
        assert a[1..][..k - 1] == a[..k][1..] && b[1..][..k - 1] == b[..k][1..];
      }
    }
  }

  /** `a <= b` on strings: equal, or `a < b`. */
  function AtMost(a: string, b: string): (r: bool)
    ensures r <==> a == b || Less(a, b)
  {
    LessIrreflexive(a);
    LessTrichotomy(a, b);
    !Less(b, a)
  }

  lemma {:induction false} LessIrreflexive(a: string)
    ensures !Less(a, a)
  {
    if a != [] { LessIrreflexive(a[1..]); }
  }

  lemma {:induction false} LessTransitive(a: string, b: string, c: string)
    requires Less(a, b) && Less(b, c)
    ensures Less(a, c)
  {
    if a != [] && a[0] == b[0] && b[0] == c[0] {
      LessTransitive(a[1..], b[1..], c[1..]);
    }
  }

  /** Any two distinct strings are ordered one way or the other, and never both. */
  lemma {:induction false} LessTrichotomy(a: string, b: string)
    ensures a == b || Less(a, b) || Less(b, a)
    ensures !(Less(a, b) && Less(b, a))
  {
    if a != [] && b != [] && a[0] == b[0] {
      LessTrichotomy(a[1..], b[1..]);
      if a[1..] == b[1..] {
        assert a == [a[0]] + a[1..] && b == [b[0]] + b[1..];
      }
    }
  }

  /** `<=` on strings is a total order. */
  lemma AtMostTotalOrder(a: string, b: string, c: string)
    ensures AtMost(a, a)
    ensures AtMost(a, b) || AtMost(b, a)
    ensures AtMost(a, b) && AtMost(b, a) ==> a == b
    ensures AtMost(a, b) && AtMost(b, c) ==> AtMost(a, c)
  {
    LessIrreflexive(a);
    LessTrichotomy(a, b);
    LessTrichotomy(b, c);
    LessTrichotomy(a, c);
    if AtMost(a, b) && AtMost(b, c) && Less(c, a) {
      if a == b {
        assert Less(c, b);
      } else {
        assert Less(a, b);
        LessTransitive(c, a, b);
      }
    }
  }
}
