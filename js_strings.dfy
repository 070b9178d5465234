/**
 * The two JavaScript string primitives the task manager relies on:
 * `String.prototype.trim` and the relational comparison `<` / `>=` of strings.
 */
module JsStrings {

  /**
   * The characters `trim` strips: ECMAScript's WhiteSpace (tab, vertical tab,
   * form feed, ZWNBSP and every space separator of category Zs) and its
   * LineTerminator (LF, CR, LS, PS).
   */
  predicate IsWhiteSpace(c: char)
  {
    c == '\t' || c == '\n' || c == '\U{000B}' || c == '\U{000C}' || c == '\r' ||
    c == ' ' || c == '\U{00A0}' || c == '\U{1680}' ||
    ('\U{2000}' <= c <= '\U{200A}') ||
    c == '\U{2028}' || c == '\U{2029}' || c == '\U{202F}' || c == '\U{205F}' ||
    c == '\U{3000}' || c == '\U{FEFF}'
  }

  /** Drops leading white space: the result is the longest suffix that starts with a non-white character. */
  function TrimStart(s: string): (r: string)
    ensures |r| <= |s| && r == s[|s| - |r|..]
    ensures forall k :: 0 <= k < |s| - |r| ==> IsWhiteSpace(s[k])
    ensures r != [] ==> !IsWhiteSpace(r[0])
  {
    if s != [] && IsWhiteSpace(s[0]) then TrimStart(s[1..]) else s
  }

  /** Drops trailing white space: the result is the longest prefix that ends with a non-white character. */
  function TrimEnd(s: string): (r: string)
    ensures |r| <= |s| && r == s[..|r|]
    ensures forall k :: |r| <= k < |s| ==> IsWhiteSpace(s[k])
    ensures r != [] ==> !IsWhiteSpace(r[|r| - 1])
  {
    if s != [] && IsWhiteSpace(s[|s| - 1]) then TrimEnd(s[..|s| - 1]) else s
  }

  /** `r` is `s[i..j]`, and everything of `s` outside that slice is white space. */
  ghost predicate IsTrimmedSlice(s: string, r: string, i: int, j: int)
  {
    && 0 <= i <= j <= |s| && r == s[i..j]
    && (forall k :: 0 <= k < i ==> IsWhiteSpace(s[k]))
    && (forall k :: j <= k < |s| ==> IsWhiteSpace(s[k]))
  }

  /**
   * `s.trim()`: the infix of `s` left after removing white space at both ends.
   * It is empty exactly when `s` consists of white space only.
   */
  function Trim(s: string): (r: string)
    ensures exists i, j :: IsTrimmedSlice(s, r, i, j)
    ensures r != [] ==> !IsWhiteSpace(r[0]) && !IsWhiteSpace(r[|r| - 1])
    ensures r == [] <==> forall k :: 0 <= k < |s| ==> IsWhiteSpace(s[k])
  {
    var t := TrimStart(s);
    var r := TrimEnd(t);
    var i := |s| - |t|;
    assert t == s[i..] && r == t[..|r|];
    assert forall k :: i + |r| <= k < |s| ==> s[k] == t[k - i];
    assert IsTrimmedSlice(s, r, i, i + |r|);
    assert r != [] ==> r[0] == s[i];
    r
  }

  /**
   * `a < b` on strings: lexicographic order, a proper prefix being smaller.
   * (`a >= b` is `!LexLess(a, b)`.)
   */
  predicate LexLess(a: string, b: string)
  {
    b != [] && (a == [] || if a[0] == b[0] then LexLess(a[1..], b[1..]) else a[0] < b[0])
  }

  /** Two strings that start with parts of equal length compare by those parts, unless the parts are equal. */
  lemma {:induction false} LexLessSplit(a1: string, a2: string, b1: string, b2: string)
    requires |a1| == |b1|
    ensures LexLess(a1 + a2, b1 + b2) == if a1 == b1 then LexLess(a2, b2) else LexLess(a1, b1)
  {
    if a1 != [] {
      assert (a1 + a2)[0] == a1[0] && (b1 + b2)[0] == b1[0];
      assert (a1 + a2)[1..] == a1[1..] + a2 && (b1 + b2)[1..] == b1[1..] + b2;
      LexLessSplit(a1[1..], a2, b1[1..], b2);
      if a1[0] == b1[0] {
        assert a1 == b1 <==> a1[1..] == b1[1..] by {
          assert a1 == [a1[0]] + a1[1..] && b1 == [b1[0]] + b1[1..];
        }
      }
    } else {
      assert a1 + a2 == a2 && b1 + b2 == b2;
    }
  }

  /** `<` on strings is irreflexive and total: of two different strings exactly one is smaller. */
  lemma {:induction false} LexLessTotal(a: string, b: string)
    ensures !LexLess(a, a)
    ensures a != b ==> (LexLess(a, b) <==> !LexLess(b, a))
  {
    if a != [] {
      LexLessTotal(a[1..], a[1..]);
      if b != [] {
        LexLessTotal(a[1..], b[1..]);
        if a[0] == b[0] {
          assert a != b ==> a[1..] != b[1..] by {
            assert a == [a[0]] + a[1..] && b == [b[0]] + b[1..];
          }
        }
      }
    }
  }
}
