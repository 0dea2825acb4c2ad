/**
 * The three functions of Go's `strings` package that the membership providers use:
 * `FieldsFunc`, `TrimSpace` and `Contains`, on strings of code points.
 */
module Strings {

  /** Go's `unicode.IsSpace`: the Latin-1 spaces and the other code points of the Unicode White_Space property. */
  predicate IsSpace(c: char) {
    c in Spaces
  }

  const Spaces: set<char> := {
    '\t', '\n', '\U{000B}', '\U{000C}', '\r', ' ', '\U{0085}', '\U{00A0}', '\U{1680}',
    '\U{2000}', '\U{2001}', '\U{2002}', '\U{2003}', '\U{2004}', '\U{2005}',
    '\U{2006}', '\U{2007}', '\U{2008}', '\U{2009}', '\U{200A}',
    '\U{2028}', '\U{2029}', '\U{202F}', '\U{205F}', '\U{3000}'
  }

  /** Length of the longest prefix of `s` whose characters all fail `f`. */
  function RunEnd(s: string, f: char -> bool): (k: nat)
    ensures k <= |s|
    ensures forall i :: 0 <= i < k ==> !f(s[i])
    ensures k < |s| ==> f(s[k])
  {
    if s == [] || f(s[0]) then 0 else 1 + RunEnd(s[1..], f)
  }

  /**
   * `strings.FieldsFunc`: the maximal runs of characters that fail `f`, in order.
   * Empty fields are never produced, and no field holds a separator.
   */
  function FieldsFunc(s: string, f: char -> bool): (r: seq<string>)
    ensures forall j :: 0 <= j < |r| ==> r[j] != []
    ensures forall j, i :: 0 <= j < |r| && 0 <= i < |r[j]| ==> !f(r[j][i])
    decreases |s|
  {
    if s == [] then []
    else if f(s[0]) then FieldsFunc(s[1..], f)
    else
      var k := RunEnd(s, f);
      [s[..k]] + FieldsFunc(s[k..], f)
  }

  /** A run without separators is its own only field. */
  lemma {:induction false} FieldsFuncOfField(t: string, f: char -> bool)
    requires t != []
    requires forall i :: 0 <= i < |t| ==> !f(t[i])
    ensures FieldsFunc(t, f) == [t]
  {
    RunEndUnique(t, f, |t|);
    assert !f(t[0]);
    assert t[..|t|] == t && t[|t|..] == [];
    assert FieldsFunc(t[|t|..], f) == [];
  }

  /** Splitting happens at every separator: the fields around one separator are the fields of each side. */
  lemma {:induction false} FieldsFuncSplit(a: string, c: char, b: string, f: char -> bool)
    requires f(c)
    ensures FieldsFunc(a + [c] + b, f) == FieldsFunc(a, f) + FieldsFunc(b, f)
    decreases |a|
  {
    var s := a + [c] + b;
    if a == [] {
      assert s[1..] == b;
    } else if f(a[0]) {
      assert s[1..] == a[1..] + [c] + b;
      FieldsFuncSplit(a[1..], c, b, f);
    } else {
      var k := RunEnd(s, f);
      var ka := RunEnd(a, f);
      assert k == ka by {
        if ka < |a| {
          assert s[ka] == a[ka];
        } else {
          assert s[ka] == c;
        }
        RunEndUnique(s, f, ka);
      }
      assert s[..k] == a[..ka];
      assert s[k..] == a[ka..] + [c] + b;
      FieldsFuncSplit(a[ka..], c, b, f);
    }
  }

  /** The run length is determined by its two defining properties. */
  lemma {:induction false} RunEndUnique(s: string, f: char -> bool, k: nat)
    requires k <= |s|
    requires forall i :: 0 <= i < k ==> !f(s[i])
    requires k < |s| ==> f(s[k])
    ensures RunEnd(s, f) == k
  {
  }

  /** Go's `strings.TrimLeftFunc(s, unicode.IsSpace)`: `s` without its leading spaces. */
  function TrimLeft(s: string): string {
    if s != [] && IsSpace(s[0]) then TrimLeft(s[1..]) else s
  }

  /** Go's `strings.TrimRightFunc(s, unicode.IsSpace)`: `s` without its trailing spaces. */
  function TrimRight(s: string): string {
    if s != [] && IsSpace(s[|s| - 1]) then TrimRight(s[..|s| - 1]) else s
  }

  /** `strings.TrimSpace`: `s` without the spaces at both of its ends. */
  function TrimSpace(s: string): string {
    TrimRight(TrimLeft(s))
  }

  /** Trimming on the left cuts off a prefix of spaces and leaves a string that does not start with one. */
  lemma {:induction false} TrimLeftShape(s: string)
    ensures var r := TrimLeft(s);
      && |r| <= |s| && r == s[|s| - |r|..]
      && (forall i :: 0 <= i < |s| - |r| ==> IsSpace(s[i]))
      && (r != [] ==> !IsSpace(r[0]))
  {
    if s != [] && IsSpace(s[0]) {
      TrimLeftShape(s[1..]);
      var r := TrimLeft(s[1..]);
      forall i | 1 <= i < |s| - |r| ensures IsSpace(s[i]) {
        assert s[i] == s[1..][i - 1];
      }
    }
  }

  /** Trimming on the right cuts off a suffix of spaces and leaves a string that does not end with one. */
  lemma {:induction false} TrimRightShape(s: string)
    ensures var r := TrimRight(s);
      && |r| <= |s| && r == s[..|r|]
      && (forall i :: |r| <= i < |s| ==> IsSpace(s[i]))
      && (r != [] ==> !IsSpace(r[|r| - 1]))
  {
    if s != [] && IsSpace(s[|s| - 1]) {
      var t := s[..|s| - 1];
      TrimRightShape(t);
      var r := TrimRight(t);
      assert r == s[..|r|];
      forall i | |r| <= i < |s| - 1 ensures IsSpace(s[i]) {
        assert s[i] == t[i];
      }
    }
  }

  /** Number of spaces `TrimSpace` cuts off at the front of `s`. */
  function LeadingSpaces(s: string): nat {
    if s != [] && IsSpace(s[0]) then 1 + LeadingSpaces(s[1..]) else 0
  }

  /** Trimming on the left removes exactly the leading spaces. */
  lemma {:induction false} TrimLeftDrops(s: string)
    ensures LeadingSpaces(s) <= |s| && TrimLeft(s) == s[LeadingSpaces(s)..]
  {
    if s != [] && IsSpace(s[0]) {
      TrimLeftDrops(s[1..]);
      assert s[1..][LeadingSpaces(s[1..])..] == s[LeadingSpaces(s)..];
    }
  }

  /** The trimmed string neither starts nor ends with a space. */
  lemma TrimSpaceEdges(s: string)
    ensures var r := TrimSpace(s); r != [] ==> !IsSpace(r[0]) && !IsSpace(r[|r| - 1])
  {
    var l := TrimLeft(s);
    var r := TrimRight(l);
    TrimLeftShape(s);
    TrimRightShape(l);
    if r != [] {
      assert r[0] == l[0];
    }
  }

  /**
   * The trimmed string is the slice of `s` that remains after cutting off spaces only,
   * before and after it.
   */
  lemma TrimSpaceCuts(s: string)
    ensures var r, k := TrimSpace(s), LeadingSpaces(s);
      && k + |r| <= |s|
      && r == s[k..k + |r|]
      && (forall i :: 0 <= i < k ==> IsSpace(s[i]))
      && (forall i :: k + |r| <= i < |s| ==> IsSpace(s[i]))
  {
    var l := TrimLeft(s);
    var r := TrimRight(l);
    TrimLeftShape(s);
    TrimLeftDrops(s);
    TrimRightShape(l);
    var k := LeadingSpaces(s);
    assert r == s[k..k + |r|];
    forall i | k + |r| <= i < |s| ensures IsSpace(s[i]) {
      assert s[i] == l[i - k];
    }
  }

  /** Trimming is idempotent. */
  lemma TrimSpaceIdempotent(s: string)
    ensures TrimSpace(TrimSpace(s)) == TrimSpace(s)
  {
    var r := TrimSpace(s);
    TrimSpaceEdges(s);
    if r != [] {
      assert TrimLeft(r) == r;
      assert TrimRight(r) == r;
    }
  }

  /** A string that neither starts nor ends with a space is its own trimming. */
  lemma TrimSpaceUnspaced(s: string)
    requires s != [] ==> !IsSpace(s[0]) && !IsSpace(s[|s| - 1])
    ensures TrimSpace(s) == s
  {
    assert TrimLeft(s) == s;
  }

  /** `sub` occurs in `s` starting at position `i`. */
  predicate OccursAt(s: string, sub: string, i: int) {
    0 <= i <= |s| - |sub| && s[i..i + |sub|] == sub
  }

  /** `strings.Contains`: whether `sub` occurs in `s` at some position. */
  function Contains(s: string, sub: string): (b: bool)
    ensures b <==> exists i :: OccursAt(s, sub, i)
    decreases |s|
  {
    if |sub| > |s| then false
    else if s[..|sub|] == sub then assert OccursAt(s, sub, 0); true
    else
      var b := Contains(s[1..], sub);
      assert b <==> exists i :: OccursAt(s, sub, i) by {
        forall i | 0 < i <= |s| - |sub|
          ensures OccursAt(s[1..], sub, i - 1) <==> OccursAt(s, sub, i)
        {
          assert s[1..][i - 1..i - 1 + |sub|] == s[i..i + |sub|];
        }
        if b {
          var j :| OccursAt(s[1..], sub, j);
          assert OccursAt(s, sub, j + 1);
        }
      }
      b
  }

  /** Every string contains the empty string. */
  lemma ContainsEmpty(s: string)
    ensures Contains(s, "")
  {
    assert OccursAt(s, "", 0);
  }
}
