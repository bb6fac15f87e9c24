/**
 * The string operations the two Python files rely on, restricted to ASCII:
 * `str.lower`, `str.strip`, the `in` substring test, `str.split` on one
 * character and the regular-expression class `\W`.
 */
module Text {

  // ---------------------------------------------------------------------
  // Character classes
  // ---------------------------------------------------------------------

  /** The ASCII characters for which Python's `str.isspace` holds. */
  predicate IsSpace(c: char) {
    c == ' ' || (9 <= c as int <= 13) || (28 <= c as int <= 31)
  }

  predicate IsUpper(c: char) {
    'A' <= c <= 'Z'
  }

  /** A character of the regular-expression class `\w`: `[A-Za-z0-9_]`. */
  predicate IsWordChar(c: char) {
    ('a' <= c <= 'z') || ('A' <= c <= 'Z') || ('0' <= c <= '9') || c == '_'
  }

  // ---------------------------------------------------------------------
  // str.lower
  // ---------------------------------------------------------------------

  function LowerChar(c: char): (d: char)
    ensures !IsUpper(d)
    ensures IsUpper(c) ==> d as int == c as int + 32
    ensures !IsUpper(c) ==> d == c
  {
    if IsUpper(c) then (c as int + 32) as char else c
  }

  function Lower(s: string): (r: string)
    ensures |r| == |s|
    ensures forall i :: 0 <= i < |s| ==> r[i] == LowerChar(s[i])
  {
    seq(|s|, i requires 0 <= i < |s| => LowerChar(s[i]))
  }

  /** A lower-cased string has no upper-case letter, so lowering it again changes nothing. */
  lemma LowerIdempotent(s: string)
    ensures Lower(Lower(s)) == Lower(s)
    ensures forall i :: 0 <= i < |s| ==> !IsUpper(Lower(s)[i])
  {
  }

  // ---------------------------------------------------------------------
  // str.strip
  // ---------------------------------------------------------------------

  /** The number of leading characters for which `drop` holds. */
  function LeadingCount(s: string, drop: char -> bool): (n: nat)
    ensures n <= |s|
    ensures forall i :: 0 <= i < n ==> drop(s[i])
    ensures n == |s| || !drop(s[n])
  {
    if s != [] && drop(s[0]) then 1 + LeadingCount(s[1..], drop) else 0
  }

  /** The number of trailing characters for which `drop` holds. */
  function TrailingCount(s: string, drop: char -> bool): (n: nat)
    ensures n <= |s|
    ensures forall i :: |s| - n <= i < |s| ==> drop(s[i])
    ensures n == |s| || !drop(s[|s| - n - 1])
  {
    if s != [] && drop(s[|s| - 1]) then 1 + TrailingCount(s[..|s| - 1], drop) else 0
  }

  /** Drops the leading characters for which `drop` holds. */
  function TrimLeft(s: string, drop: char -> bool): (r: string)
    ensures |r| <= |s| && r == s[|s| - |r|..]
    ensures forall i :: 0 <= i < |s| - |r| ==> drop(s[i])
    ensures r == [] || !drop(r[0])
  {
    s[LeadingCount(s, drop)..]
  }

  /** Drops the trailing characters for which `drop` holds. */
  function TrimRight(s: string, drop: char -> bool): (r: string)
    ensures |r| <= |s| && r == s[..|r|]
    ensures forall i :: |r| <= i < |s| ==> drop(s[i])
    ensures r == [] || !drop(r[|r| - 1])
  {
    s[..|s| - TrailingCount(s, drop)]
  }

  /**
   * Python's `s.strip(chars)`: neither end of the result satisfies `drop`
   * (see TrimSlice for what is cut away).
   */
  function Trim(s: string, drop: char -> bool): (r: string)
    ensures |r| <= |s|
    ensures r == [] || (!drop(r[0]) && !drop(r[|r| - 1]))
  {
    TrimRight(TrimLeft(s, drop), drop)
  }

  /**
   * What stripping keeps is one contiguous slice of the input, and every
   * character cut away on either side satisfies `drop`.
   */
  lemma TrimSlice(s: string, drop: char -> bool)
    ensures var i := |s| - |TrimLeft(s, drop)|; var r := Trim(s, drop);
      && i + |r| <= |s| && r == s[i..i + |r|]
      && (forall k :: 0 <= k < i ==> drop(s[k]))
      && (forall k :: i + |r| <= k < |s| ==> drop(s[k]))
  {
    TrimKeepsSlice(s, drop);
    TrimDropsRight(s, drop);
  }

  /** The kept part of `Trim` is the slice after the characters TrimLeft drops. */
  lemma TrimKeepsSlice(s: string, drop: char -> bool)
    ensures var i := |s| - |TrimLeft(s, drop)|; var r := Trim(s, drop);
      i + |r| <= |s| && r == s[i..i + |r|]
  {
    var left := TrimLeft(s, drop);
    SliceOfSuffix(s, left, TrimRight(left, drop), |s| - |left|);
  }

  /** Every character after the kept part of `Trim` satisfies `drop`. */
  lemma TrimDropsRight(s: string, drop: char -> bool)
    ensures var i := |s| - |TrimLeft(s, drop)|; var r := Trim(s, drop);
      forall k :: i + |r| <= k < |s| ==> drop(s[k])
  {
    var left := TrimLeft(s, drop);
    var i := |s| - |left|;
    var r := TrimRight(left, drop);
    forall k | i + |r| <= k < |s| ensures drop(s[k]) {
      assert left == s[i..];
      assert s[k] == left[k - i];
      TrimRightDropped(left, drop, k - i);
    }
  }

  /** Trimming never introduces a character. */
  lemma TrimKeepsOut(s: string, drop: char -> bool, c: char)
    requires c !in s
    ensures c !in Trim(s, drop)
  {
    TrimKeepsSlice(s, drop);
  }

  /** A prefix of a suffix is a slice. */
  lemma SliceOfSuffix(s: string, suffix: string, r: string, i: nat)
    requires i <= |s| && suffix == s[i..]
    requires |r| <= |suffix| && r == suffix[..|r|]
    ensures i + |r| <= |s| && r == s[i..i + |r|]
  {
  }

  /** A character that TrimRight cuts away satisfies `drop`. */
  lemma TrimRightDropped(s: string, drop: char -> bool, k: nat)
    requires |TrimRight(s, drop)| <= k < |s|
    ensures drop(s[k])
  {
  }

  /** Python's `s.strip()`. */
  function Strip(s: string): (r: string) {
    Trim(s, IsSpace)
  }

  // ---------------------------------------------------------------------
  // The `in` operator on strings
  // ---------------------------------------------------------------------

  predicate StartsWith(s: string, prefix: string) {
    |prefix| <= |s| && s[..|prefix|] == prefix
  }

  predicate EndsWith(s: string, suffix: string) {
    |suffix| <= |s| && s[|s| - |suffix|..] == suffix
  }

  /** Python's `sub in s`. */
  predicate Contains(s: string, sub: string) {
    StartsWith(s, sub) || (s != [] && Contains(s[1..], sub))
  }

  /** `sub` occurs in `s` starting at position `i`. */
  predicate OccursAt(s: string, sub: string, i: nat) {
    i + |sub| <= |s| && s[i..i + |sub|] == sub
  }

  /** `Contains` holds exactly when `sub` occurs at some position of `s`. */
  lemma {:induction false} ContainsIff(s: string, sub: string)
    ensures Contains(s, sub) <==> exists i: nat :: OccursAt(s, sub, i)
  {
    if s == [] {
      assert Contains(s, sub) ==> OccursAt(s, sub, 0);
    } else {
      ContainsIff(s[1..], sub);
      if StartsWith(s, sub) {
        assert OccursAt(s, sub, 0);
      } else if Contains(s[1..], sub) {
        var i: nat :| OccursAt(s[1..], sub, i);
        assert s[1..][i..i + |sub|] == s[i + 1..i + 1 + |sub|];
        assert OccursAt(s, sub, i + 1);
      }
      if exists i: nat :: OccursAt(s, sub, i) {
        var i: nat :| OccursAt(s, sub, i);
        if i > 0 {
          assert s[1..][i - 1..i - 1 + |sub|] == s[i..i + |sub|];
          assert OccursAt(s[1..], sub, i - 1);
        }
      }
    }
  }

  /** Lower-casing never creates nor destroys an occurrence of `{{`. */
  lemma {:induction false} LowerKeepsBraces(s: string)
    ensures Contains(Lower(s), "{{") <==> Contains(s, "{{")
  {
    if s != [] {
      LowerKeepsBraces(s[1..]);
      assert Lower(s)[1..] == Lower(s[1..]);
      if |s| >= 2 {
        assert Lower(s)[..2] == [LowerChar(s[0]), LowerChar(s[1])];
        assert s[..2] == [s[0], s[1]];
      }
    }
  }

  // ---------------------------------------------------------------------
  // re.sub(r'\W+', '', s)
  // ---------------------------------------------------------------------

  /** Deletes every character outside `\w`, keeping the others in order. */
  function KeepWordChars(s: string): (r: string)
    ensures |r| <= |s|
    ensures forall c :: c in r <==> c in s && IsWordChar(c)
  {
    if s == [] then []
    else if IsWordChar(s[0]) then [s[0]] + KeepWordChars(s[1..])
    else KeepWordChars(s[1..])
  }

  /** A single character is kept exactly when it is a word character. */
  lemma KeepWordCharsSingle(c: char)
    ensures KeepWordChars([c]) == if IsWordChar(c) then [c] else []
  {
    assert [c][1..] == [];
  }

  /**
   * Removal works piece by piece: the result for a concatenation is the
   * concatenation of the results, so the word characters stay in input
   * order and keep their repeats.
   */
  lemma {:induction false} KeepWordCharsAppend(a: string, b: string)
    ensures KeepWordChars(a + b) == KeepWordChars(a) + KeepWordChars(b)
  {
    if a == [] {
      assert a + b == b;
    } else {
      assert (a + b)[0] == a[0];
      assert (a + b)[1..] == a[1..] + b;
      KeepWordCharsAppend(a[1..], b);
      if IsWordChar(a[0]) {
        assert [a[0]] + (KeepWordChars(a[1..]) + KeepWordChars(b))
            == ([a[0]] + KeepWordChars(a[1..])) + KeepWordChars(b);
      }
    }
  }

  /** Keeping the word characters of a string made of word characters changes nothing. */
  lemma {:induction false} KeepWordCharsIdempotent(s: string)
    ensures KeepWordChars(KeepWordChars(s)) == KeepWordChars(s)
  {
    if s != [] {
      KeepWordCharsIdempotent(s[1..]);
      if IsWordChar(s[0]) {
        assert ([s[0]] + KeepWordChars(s[1..]))[1..] == KeepWordChars(s[1..]);
      }
    }
  }

  // ---------------------------------------------------------------------
  // str.split(sep) with a one-character separator
  // ---------------------------------------------------------------------

  /** The pieces of `s` between occurrences of `sep`; there is always at least one. */
  function Split(s: string, sep: char): (pieces: seq<string>)
    ensures |pieces| >= 1
    ensures forall k :: 0 <= k < |pieces| ==> sep !in pieces[k]
  {
    if s == [] then [[]]
    else if s[0] == sep then [[]] + Split(s[1..], sep)
    else
      var rest := Split(s[1..], sep);
      [[s[0]] + rest[0]] + rest[1..]
  }

  /** `sep.join(pieces)`. */
  function Join(pieces: seq<string>, sep: char): string
    requires |pieces| >= 1
  {
    if |pieces| == 1 then pieces[0] else pieces[0] + [sep] + Join(pieces[1..], sep)
  }

  /** Joining the pieces back with the separator gives the original string. */
  lemma {:induction false} JoinSplit(s: string, sep: char)
    ensures Join(Split(s, sep), sep) == s
  {
    if s != [] {
      JoinSplit(s[1..], sep);
      var rest := Split(s[1..], sep);
      if s[0] == sep {
        assert ([[]] + rest)[1..] == rest;
      } else {
        var pieces := [[s[0]] + rest[0]] + rest[1..];
        if |rest| > 1 {
          assert pieces[1..] == rest[1..];
          assert Join(rest, sep) == rest[0] + [sep] + Join(rest[1..], sep);
        }
      }
    }
  }

  /** There is a second piece exactly when the separator occurs. */
  lemma {:induction false} SplitHasSecondPiece(s: string, sep: char)
    ensures |Split(s, sep)| >= 2 <==> sep in s
  {
    if s != [] {
      SplitHasSecondPiece(s[1..], sep);
      assert sep in s <==> s[0] == sep || sep in s[1..];
    }
  }
}
