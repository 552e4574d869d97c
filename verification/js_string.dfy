/** The parts of JavaScript's string semantics the pipeline relies on:
    `trim`, ASCII case mapping, the regular-expression classes `\w` and `.`,
    `includes`, and the decimal rendering of a number in a template string.
    Strings are sequences of Unicode scalar values; UTF-16 surrogate pairs
    are not modelled. */
module JsString {

  /** The code points ECMAScript counts as WhiteSpace or LineTerminator:
      exactly what `String.prototype.trim` removes. */
  predicate IsWhitespace(c: char) {
    || c == ' ' || c == '\t' || c == '\n' || c == '\U{000B}' || c == '\U{000C}' || c == '\r'
    || c == '\U{00A0}' || c == '\U{1680}' || ('\U{2000}' <= c <= '\U{200A}')
    || c == '\U{2028}' || c == '\U{2029}' || c == '\U{202F}' || c == '\U{205F}'
    || c == '\U{3000}' || c == '\U{FEFF}'
  }

  /** The characters a regular-expression `.` does not match. */
  predicate IsLineTerminator(c: char) {
    c == '\n' || c == '\r' || c == '\U{2028}' || c == '\U{2029}'
  }

  /** `!s || s.trim() === ''`: empty or whitespace only. By the contract of
      `Trim` this is the same as `Trim(s) == []`. */
  predicate IsBlankText(s: string) {
    forall i :: 0 <= i < |s| ==> IsWhitespace(s[i])
  }

  /** Drops the maximal whitespace prefix. */
  function TrimStart(s: string): (r: string)
    ensures |r| <= |s| && r == s[|s| - |r|..]
    ensures forall i :: 0 <= i < |s| - |r| ==> IsWhitespace(s[i])
    ensures r == [] || !IsWhitespace(r[0])
  {
    if s != [] && IsWhitespace(s[0]) then TrimStart(s[1..]) else s
  }

  /** Drops the maximal whitespace suffix. */
  function TrimEnd(s: string): (r: string)
    ensures |r| <= |s| && r == s[..|r|]
    ensures forall i :: |r| <= i < |s| ==> IsWhitespace(s[i])
    ensures r == [] || !IsWhitespace(r[|r| - 1])
  {
    if s != [] && IsWhitespace(s[|s| - 1]) then TrimEnd(s[..|s| - 1]) else s
  }

  /** How many characters `trim` removes from the front of `s`. */
  function TrimOffset(s: string): nat {
    |s| - |TrimStart(s)|
  }

  /** Text that neither starts nor ends with whitespace. */
  predicate NoOuterWhitespace(s: string) {
    s != [] ==> !IsWhitespace(s[0]) && !IsWhitespace(s[|s| - 1])
  }

  /** `s.trim()`: no whitespace at either end, and empty exactly when `s`
      is all whitespace. */
  function Trim(s: string): (r: string)
    ensures r == [] <==> IsBlankText(s)
    ensures NoOuterWhitespace(r)
  {
    TrimBothEndsBlank(s);
    TrimBothEndsEdges(s);
    TrimEnd(TrimStart(s))
  }

  lemma TrimBothEndsEdges(s: string)
    ensures NoOuterWhitespace(TrimEnd(TrimStart(s)))
  {
    var front := TrimStart(s);
    var r := TrimEnd(front);
    if r != [] {
      assert r[0] == front[0];
    }
  }

  lemma TrimBothEndsBlank(s: string)
    ensures TrimEnd(TrimStart(s)) == [] <==> IsBlankText(s)
  {
    var front := TrimStart(s);
    if TrimEnd(front) == [] {
      assert front == [];
    } else {
      assert front[0] == s[|s| - |front|];
    }
  }

  /** The trimmed text is a contiguous piece of `s`, starting where the
      leading whitespace ends. */
  lemma TrimIsSlice(s: string)
    ensures TrimOffset(s) + |Trim(s)| <= |s|
    ensures Trim(s) == s[TrimOffset(s)..TrimOffset(s) + |Trim(s)|]
  {
    var front := TrimStart(s);
    var r := TrimEnd(front);
    assert Trim(s) == r;
    SliceOfSuffix(s, TrimOffset(s), |r|);
  }

  lemma SliceOfSuffix(s: string, o: nat, n: nat)
    requires o + n <= |s|
    ensures s[o..][..n] == s[o..o + n]
  {
  }

  /** Text with no whitespace at either end is its own trim. */
  lemma TrimOfTrimmed(s: string)
    requires NoOuterWhitespace(s)
    ensures Trim(s) == s
  {
    assert TrimStart(s) == s;
  }

  /** Leading whitespace is dropped by `trim`. */
  lemma TrimDropsLeadingWhitespace(c: char, s: string)
    requires IsWhitespace(c)
    ensures Trim([c] + s) == Trim(s)
  {
    var t := [c] + s;
    assert t[0] == c && t[1..] == s;
    assert TrimStart(t) == TrimStart(s);
    assert Trim(t) == TrimEnd(TrimStart(t));
  }

  predicate IsAsciiUpper(c: char) { 'A' <= c <= 'Z' }

  predicate IsAsciiLower(c: char) { 'a' <= c <= 'z' }

  /** `toLowerCase` on one character, restricted to ASCII letters. */
  function LowerChar(c: char): char {
    if IsAsciiUpper(c) then (c as int + 32) as char else c
  }

  /** `toUpperCase` on one character, restricted to ASCII letters. */
  function UpperChar(c: char): char {
    if IsAsciiLower(c) then (c as int - 32) as char else c
  }

  function ToLower(s: string): string {
    seq(|s|, i requires 0 <= i < |s| => LowerChar(s[i]))
  }

  function ToUpper(s: string): string {
    seq(|s|, i requires 0 <= i < |s| => UpperChar(s[i]))
  }

  /** The regular-expression class `\w` (without the `u` flag). */
  predicate IsWordChar(c: char) {
    IsAsciiUpper(c) || IsAsciiLower(c) || ('0' <= c <= '9') || c == '_'
  }

  lemma CaseMappingKeepsCharClass(c: char)
    ensures IsWordChar(LowerChar(c)) == IsWordChar(c) && IsWordChar(UpperChar(c)) == IsWordChar(c)
    ensures IsWhitespace(LowerChar(c)) == IsWhitespace(c) && IsWhitespace(UpperChar(c)) == IsWhitespace(c)
    ensures IsLineTerminator(UpperChar(c)) == IsLineTerminator(c)
    ensures LowerChar(UpperChar(c)) == LowerChar(c) && UpperChar(LowerChar(c)) == UpperChar(c)
    ensures LowerChar(LowerChar(c)) == LowerChar(c) && UpperChar(UpperChar(c)) == UpperChar(c)
    ensures (LowerChar(c) == '/') == (c == '/') && (LowerChar(c) == '.') == (c == '.')
  {
  }

  /** `toLowerCase`: no capital is left, and each character differs from
      the original at most in case. */
  lemma ToLowerCharacterised(s: string)
    ensures |ToLower(s)| == |s|
    ensures forall i :: 0 <= i < |s| ==> !IsAsciiUpper(ToLower(s)[i]) && UpperChar(ToLower(s)[i]) == UpperChar(s[i])
  {
  }

  /** `toUpperCase`: no small letter is left, and each character differs
      from the original at most in case. */
  lemma ToUpperCharacterised(s: string)
    ensures |ToUpper(s)| == |s|
    ensures forall i :: 0 <= i < |s| ==> !IsAsciiLower(ToUpper(s)[i]) && LowerChar(ToUpper(s)[i]) == LowerChar(s[i])
  {
  }

  /** Upper-casing an identifier a second time changes nothing. */
  lemma ToUpperIdempotent(s: string)
    ensures |ToUpper(s)| == |s|
    ensures ToUpper(ToUpper(s)) == ToUpper(s)
  {
    forall i | 0 <= i < |s| ensures ToUpper(ToUpper(s))[i] == ToUpper(s)[i] {
      CaseMappingKeepsCharClass(s[i]);
    }
  }

  /** Case mapping never turns a blank value into a non-blank one or back. */
  lemma ToUpperKeepsBlankness(s: string)
    ensures IsBlankText(ToUpper(s)) == IsBlankText(s)
  {
    forall i | 0 <= i < |s| ensures IsWhitespace(ToUpper(s)[i]) == IsWhitespace(s[i]) {
      CaseMappingKeepsCharClass(s[i]);
    }
  }

  lemma ToLowerIdempotent(s: string)
    ensures ToLower(ToLower(s)) == ToLower(s)
  {
    forall i | 0 <= i < |s| ensures ToLower(ToLower(s))[i] == ToLower(s)[i] {
      CaseMappingKeepsCharClass(s[i]);
    }
  }

  lemma ToLowerSlices(s: string, k: nat)
    requires k <= |s|
    ensures ToLower(s)[..k] == ToLower(s[..k])
    ensures ToLower(s)[k..] == ToLower(s[k..])
  {
  }

  lemma ToLowerAppend(a: string, b: string)
    ensures ToLower(a + b) == ToLower(a) + ToLower(b)
  {
  }

  /** `p` is a prefix of `s`. */
  predicate StartsWith(s: string, p: string) {
    |p| <= |s| && s[..|p|] == p
  }

  lemma StartsWithHead(s: string, p: string)
    requires p != [] && StartsWith(s, p)
    ensures s != [] && s[0] == p[0]
  {
    assert s[..|p|][0] == s[0];
  }

  /** `s.includes(p)`. */
  function Contains(s: string, p: string): bool
    decreases |s|
  {
    if |s| < |p| then false else s[..|p|] == p || Contains(s[1..], p)
  }

  /** `p` occurs in `s` starting at index `i`. */
  predicate OccursAt(s: string, p: string, i: int) {
    0 <= i && i + |p| <= |s| && s[i..i + |p|] == p
  }

  /** `Contains` finds exactly the places where `p` occurs in `s`. */
  lemma {:induction false} ContainsIffOccurrence(s: string, p: string)
    ensures Contains(s, p) <==> exists i :: OccursAt(s, p, i)
    decreases |s|
  {
    if |s| >= |p| {
      if s[..|p|] == p {
        assert OccursAt(s, p, 0);
      } else {
        ContainsIffOccurrence(s[1..], p);
        if Contains(s[1..], p) {
          var i :| OccursAt(s[1..], p, i);
          assert s[i + 1..i + 1 + |p|] == s[1..][i..i + |p|];
          assert OccursAt(s, p, i + 1);
        }
        if exists i :: OccursAt(s, p, i) {
          var i :| OccursAt(s, p, i);
          assert i != 0;
          assert s[1..][i - 1..i - 1 + |p|] == s[i..i + |p|];
          assert OccursAt(s[1..], p, i - 1);
        }
      }
    }
  }

  /** Gluing a prefix in front of a message cannot create or destroy an
      occurrence of `p` when the prefix never contains the first character
      of `p`. */
  lemma {:induction false} ContainsAfterForeignPrefix(prefix: string, m: string, p: string)
    requires p != [] && p[0] !in prefix
    ensures Contains(prefix + m, p) == Contains(m, p)
    decreases |prefix|
  {
    if prefix != [] {
      assert (prefix + m)[0] == prefix[0];
      assert (prefix + m)[1..] == prefix[1..] + m;
      ContainsAfterForeignPrefix(prefix[1..], m, p);
    } else {
      assert prefix + m == m;
    }
  }

  /** `a` is `b` with some elements deleted, the rest kept in order. */
  predicate IsSublist<T(==)>(a: seq<T>, b: seq<T>)
    decreases |b|
  {
    if a == [] then true
    else if b == [] then false
    else if a[0] == b[0] then IsSublist(a[1..], b[1..])
    else IsSublist(a, b[1..])
  }

  predicate Distinct<T(==)>(s: seq<T>) {
    forall i, j :: 0 <= i < j < |s| ==> s[i] != s[j]
  }

  lemma {:induction false} SublistMembers<T>(a: seq<T>, b: seq<T>)
    requires IsSublist(a, b)
    ensures forall x :: x in a ==> x in b
    decreases |b|
  {
    if a != [] {
      if a[0] == b[0] {
        SublistMembers(a[1..], b[1..]);
        forall x | x in a ensures x in b {
          if x != a[0] {
            assert x in a[1..];
          }
        }
      } else {
        SublistMembers(a, b[1..]);
      }
    }
  }

  lemma {:induction false} SublistDropHead<T>(a: seq<T>, b: seq<T>)
    requires a != [] && IsSublist(a, b)
    ensures IsSublist(a[1..], b)
    decreases |b|
  {
    if a[0] == b[0] {
      SublistOfTail(a[1..], b);
    } else {
      SublistDropHead(a, b[1..]);
      SublistOfTail(a[1..], b);
    }
  }

  lemma {:induction false} SublistOfTail<T>(a: seq<T>, b: seq<T>)
    requires b != [] && IsSublist(a, b[1..])
    ensures IsSublist(a, b)
    decreases |b|, 0
  {
    if a != [] && a[0] == b[0] {
      SublistDropHead(a, b[1..]);
    }
  }

  /** Over a list without repetitions, an in-order sublist is determined by
      which elements it keeps. */
  lemma {:induction false} SublistDeterminedByMembers<T>(x: seq<T>, y: seq<T>, b: seq<T>)
    requires Distinct(b) && IsSublist(x, b) && IsSublist(y, b)
    requires forall e :: e in x <==> e in y
    ensures x == y
    decreases |b|
  {
    if b != [] {
      assert Distinct(b[1..]) by {
        forall i, j | 0 <= i < j < |b[1..]| ensures b[1..][i] != b[1..][j] {
          assert b[1..][i] == b[i + 1] && b[1..][j] == b[j + 1];
        }
      }
      assert b[0] !in b[1..] by {
        forall j | 0 <= j < |b[1..]| ensures b[1..][j] != b[0] {
          assert b[1..][j] == b[j + 1];
        }
      }
      if b[0] in x {
        HeadOfDistinctSublist(x, b);
        HeadOfDistinctSublist(y, b);
        SublistMembers(x[1..], b[1..]);
        SublistMembers(y[1..], b[1..]);
        forall e ensures e in x[1..] <==> e in y[1..] {
          if e in x[1..] {
            assert e != b[0] && e in x;
          }
          if e in y[1..] {
            assert e != b[0] && e in y;
          }
        }
        SublistDeterminedByMembers(x[1..], y[1..], b[1..]);
        assert x == [x[0]] + x[1..];
        assert y == [y[0]] + y[1..];
      } else {
        SublistDeterminedByMembers(x, y, b[1..]);
      }
    }
  }

  /** When the first element of a repetition-free list is kept in a sublist,
      it is the sublist's first element. */
  lemma HeadOfDistinctSublist<T>(x: seq<T>, b: seq<T>)
    requires b != [] && IsSublist(x, b) && b[0] in x && b[0] !in b[1..]
    ensures x != [] && x[0] == b[0] && IsSublist(x[1..], b[1..])
  {
    if x[0] != b[0] {
      SublistMembers(x, b[1..]);
      assert false;
    }
  }

  function DigitChar(d: nat): char
    requires d < 10
  {
    ('0' as int + d) as char
  }

  predicate AllDigits(s: string) {
    forall i :: 0 <= i < |s| ==> '0' <= s[i] <= '9'
  }

  /** The decimal rendering of a non-negative integer, as a template string
      `${n}` produces it: at least one digit and no leading zero. */
  function NatToString(n: nat): (r: string)
    ensures r != [] && AllDigits(r)
    ensures |r| > 1 ==> r[0] != '0'
  {
    if n < 10 then [DigitChar(n)] else NatToString(n / 10) + [DigitChar(n % 10)]
  }

  /** The number a string of decimal digits denotes. */
  function DigitsValue(s: string): nat
    requires AllDigits(s)
  {
    if s == [] then 0 else DigitsValue(s[..|s| - 1]) * 10 + (s[|s| - 1] as int - '0' as int)
  }

  /** Reading back the rendered digits gives the number again. */
  lemma {:induction false} NatToStringRoundTrip(n: nat)
    ensures DigitsValue(NatToString(n)) == n
  {
    if n >= 10 {
      var r := NatToString(n);
      assert r[..|r| - 1] == NatToString(n / 10);
      NatToStringRoundTrip(n / 10);
    }
  }
}
