/**
 * Characters and strings as Python's `str` methods and `re` character classes
 * see them, restricted to Latin-1 text: characters above U+00FF are treated as
 * non-digits, non-space, non-word characters that lowercasing leaves alone.
 */
module Text {

  /** `\d`: on Latin-1 text only the ASCII digits are decimal digits. */
  predicate IsDigit(c: char) {
    '0' <= c <= '9'
  }

  /** `\s`: the Latin-1 characters for which `str.isspace()` holds. */
  predicate IsSpace(c: char) {
    c == ' ' || ('\t' <= c <= '\r') || ('\U{1c}' <= c <= '\U{1f}') || c == '\U{85}' || c == '\U{a0}'
  }

  /** `\w`: `_` and the Latin-1 characters for which `str.isalnum()` holds (letters, digits, and the numeric signs `²`, `³`, `¹`, `¼`, `½`, `¾`). */
  predicate IsWordChar(c: char) {
    || IsDigit(c)
    || ('A' <= c <= 'Z') || ('a' <= c <= 'z') || c == '_'
    || c == '\U{aa}' || c == '\U{b2}' || c == '\U{b3}' || c == '\U{b5}'
    || c == '\U{b9}' || c == '\U{ba}' || ('\U{bc}' <= c <= '\U{be}')
    || ('\U{c0}' <= c <= '\U{d6}') || ('\U{d8}' <= c <= '\U{f6}') || ('\U{f8}' <= c <= '\U{ff}')
  }

  /** A character `str.lower()` changes: ASCII capitals and the Latin-1 capitals `À`..`Þ` except `×`. */
  predicate IsUpper(c: char) {
    ('A' <= c <= 'Z') || ('\U{c0}' <= c <= '\U{d6}') || ('\U{d8}' <= c <= '\U{de}')
  }

  /** `str.lower()` on one character: each capital moves 32 code points up. */
  function LowerChar(c: char): (r: char)
    ensures !IsUpper(r)
    ensures IsUpper(c) ==> r as int == c as int + 32
    ensures !IsUpper(c) ==> r == c
  {
    if IsUpper(c) then (c as int + 32) as char else c
  }

  /** `str.lower()`. */
  function Lower(s: string): (r: string)
    ensures |r| == |s|
    ensures forall i :: 0 <= i < |s| ==> r[i] == LowerChar(s[i])
  {
    if s == [] then [] else [LowerChar(s[0])] + Lower(s[1..])
  }

  /** `s.replace(from, to)` for single characters. */
  function ReplaceChar(s: string, from: char, to: char): (r: string)
    ensures |r| == |s|
    ensures forall i :: 0 <= i < |s| ==> r[i] == if s[i] == from then to else s[i]
  {
    if s == [] then [] else [if s[0] == from then to else s[0]] + ReplaceChar(s[1..], from, to)
  }

  /** `s.replace(c, '')`: every `c` removed, everything else kept in order. */
  function DeleteChar(s: string, c: char): string
  {
    if s == [] then [] else (if s[0] == c then [] else [s[0]]) + DeleteChar(s[1..], c)
  }

  /**
   * What deleting keeps: no `c`, only characters of `s`, every occurrence of
   * every other character, and all of `s` when it holds no `c`. The order is
   * kept too: `DeleteCharAppend`.
   */
  lemma {:induction false} DeleteCharFacts(s: string, c: char)
    ensures c !in DeleteChar(s, c)
    ensures forall x :: x in DeleteChar(s, c) ==> x in s && x != c
    ensures multiset(DeleteChar(s, c)) == multiset(s)[c := 0]
    ensures c !in s ==> DeleteChar(s, c) == s
  {
    DeleteCharBasics(s, c);
    if s != [] {
      DeleteCharFacts(s[1..], c);
      assert s == [s[0]] + s[1..];
      assert multiset(s) == multiset([s[0]]) + multiset(s[1..]);
    }
  }

  /** The part of `DeleteCharFacts` that needs no multisets. */
  lemma {:induction false} DeleteCharBasics(s: string, c: char)
    ensures c !in DeleteChar(s, c)
    ensures forall x :: x in DeleteChar(s, c) ==> x in s && x != c
    ensures c !in s ==> DeleteChar(s, c) == s
  {
    if s != [] {
      DeleteCharBasics(s[1..], c);
      assert forall x :: x in s[1..] ==> x in s;
    }
  }

  /** Deleting the one `c` between two strings without `c` joins them. */
  lemma DeleteCharJoin(a: string, b: string, c: char)
    requires c !in a && c !in b
    ensures DeleteChar(a + [c] + b, c) == a + b
  {
    var ac := a + [c];
    assert DeleteChar([c], c) == [] by {
      DeleteCharOne(c);
    }
    assert DeleteChar(ac, c) == a by {
      DeleteCharAppend(a, [c], c);
      DeleteCharAbsent(a, c);
    }
    assert DeleteChar(ac + b, c) == a + b by {
      DeleteCharAppend(ac, b, c);
      DeleteCharAbsent(b, c);
    }
  }

  lemma DeleteCharOne(c: char)
    ensures DeleteChar([c], c) == []
  {
    assert [c][1..] == [];
  }

  /** A string without `c` loses nothing. */
  lemma {:induction false} DeleteCharAbsent(s: string, c: char)
    requires c !in s
    ensures DeleteChar(s, c) == s
  {
    if s != [] {
      assert c !in s[1..] by {
        assert forall x :: x in s[1..] ==> x in s;
      }
      DeleteCharAbsent(s[1..], c);
    }
  }

  /** `s.startswith(lit)` at position `w` of `s`. */
  predicate StartsWithAt(s: string, w: nat, lit: string) {
    w + |lit| <= |s| && s[w..w + |lit|] == lit
  }

  /** Python's `sub in s`. */
  predicate Contains(s: string, sub: string)
    decreases |s|
  {
    StartsWithAt(s, 0, sub) || (s != [] && Contains(s[1..], sub))
  }

  predicate AllDigits(s: string) {
    forall i :: 0 <= i < |s| ==> IsDigit(s[i])
  }

  predicate AllSpace(s: string) {
    forall i :: 0 <= i < |s| ==> IsSpace(s[i])
  }

  /**
   * The end of the longest run of characters of class `cls` starting at `j`:
   * a greedy `cls*` scanned from `j`.
   */
  function SpanEnd(s: string, j: nat, cls: char -> bool): (r: nat)
    requires j <= |s|
    ensures j <= r <= |s|
    ensures forall k :: j <= k < r ==> cls(s[k])
    ensures r == |s| || !cls(s[r])
    decreases |s| - j
  {
    if j == |s| || !cls(s[j]) then j else SpanEnd(s, j + 1, cls)
  }

  /** Any run end with the two properties above is the one `SpanEnd` finds. */
  lemma SpanEndUnique(s: string, j: nat, e: nat, cls: char -> bool)
    requires j <= e <= |s|
    requires forall k :: j <= k < e ==> cls(s[k])
    requires e == |s| || !cls(s[e])
    ensures SpanEnd(s, j, cls) == e
  {
  }

  // ---- algebra of the string functions ----

  lemma {:induction false} DeleteCharAppend(a: string, b: string, c: char)
    ensures DeleteChar(a + b, c) == DeleteChar(a, c) + DeleteChar(b, c)
    decreases |a|
  {
    if a == [] {
      assert a + b == b;
    } else {
      assert (a + b)[1..] == a[1..] + b;
      DeleteCharAppend(a[1..], b, c);
    }
  }

  lemma ReplaceCharAppend(a: string, b: string, from: char, to: char)
    ensures ReplaceChar(a + b, from, to) == ReplaceChar(a, from, to) + ReplaceChar(b, from, to)
  {
    var l, r := ReplaceChar(a + b, from, to), ReplaceChar(a, from, to) + ReplaceChar(b, from, to);
    assert |l| == |r|;
    forall i | 0 <= i < |l| ensures l[i] == r[i] {
      if i < |a| {
        assert (a + b)[i] == a[i];
      } else {
        assert (a + b)[i] == b[i - |a|];
      }
    }
  }

  lemma ReplaceCharSlice(s: string, i: nat, j: nat, from: char, to: char)
    requires i <= j <= |s|
    ensures ReplaceChar(s, from, to)[i..j] == ReplaceChar(s[i..j], from, to)
  {
  }

  /** Replacing a character that does not occur changes nothing. */
  lemma ReplaceCharAbsent(s: string, from: char, to: char)
    requires from !in s
    ensures ReplaceChar(s, from, to) == s
  {
    var r := ReplaceChar(s, from, to);
    assert forall i :: 0 <= i < |s| ==> r[i] == s[i];
  }

  /** Lowercasing twice is lowercasing once. */
  lemma LowerIdempotent(s: string)
    ensures Lower(Lower(s)) == Lower(s)
  {
    var once, twice := Lower(s), Lower(Lower(s));
    assert forall i :: 0 <= i < |s| ==> twice[i] == once[i];
  }

  /** A string that `str.lower()` leaves unchanged. */
  predicate IsLowercase(s: string) {
    forall i :: 0 <= i < |s| ==> !IsUpper(s[i])
  }

  lemma LowerOfLowercase(s: string)
    requires IsLowercase(s)
    ensures Lower(s) == s
  {
    var r := Lower(s);
    assert forall i :: 0 <= i < |s| ==> r[i] == s[i];
  }

  /** `Contains` holds exactly when `sub` occurs at some position. */
  lemma {:induction false} ContainsAt(s: string, sub: string, k: nat)
    requires StartsWithAt(s, k, sub)
    ensures Contains(s, sub)
    decreases k
  {
    if k > 0 {
      assert s[1..][k - 1..k - 1 + |sub|] == s[k..k + |sub|];
      ContainsAt(s[1..], sub, k - 1);
    }
  }

  lemma {:induction false} ContainsWitness(s: string, sub: string) returns (k: nat)
    requires Contains(s, sub)
    ensures StartsWithAt(s, k, sub)
    decreases |s|
  {
    if StartsWithAt(s, 0, sub) {
      k := 0;
    } else {
      var k' := ContainsWitness(s[1..], sub);
      assert s[1..][k'..k' + |sub|] == s[k' + 1..k' + 1 + |sub|];
      k := k' + 1;
    }
  }

  /** A string that contains `sub` contains every prefix of `sub`. */
  lemma ContainsPrefix(s: string, sub: string, n: nat)
    requires n <= |sub|
    requires Contains(s, sub)
    ensures Contains(s, sub[..n])
  {
    var k := ContainsWitness(s, sub);
    assert s[k..k + n] == s[k..k + |sub|][..n];
    ContainsAt(s, sub[..n], k);
  }
}
