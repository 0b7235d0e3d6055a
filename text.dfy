/**
 * The character and string primitives the server relies on: the white-space
 * class shared by `String.prototype.trim` and the regular-expression class
 * `\s`, ASCII lower-casing, trimming, searching and prefix tests.
 */
module Text {

  /** The white space of ECMAScript (WhiteSpace and LineTerminator), which is
      what both `trim` removes and `\s` matches. */
  predicate IsSpace(c: char) {
    || c == ' ' || c == '\t' || c == '\n' || c == '\U{B}' || c == '\U{C}' || c == '\r'
    || c == '\U{A0}' || c == '\U{1680}' || ('\U{2000}' <= c <= '\U{200A}')
    || c == '\U{2028}' || c == '\U{2029}' || c == '\U{202F}' || c == '\U{205F}'
    || c == '\U{3000}' || c == '\U{FEFF}'
  }

  predicate IsUpper(c: char) { 'A' <= c <= 'Z' }

  predicate LowerCase(s: string) {
    forall k :: 0 <= k < |s| ==> !IsUpper(s[k])
  }

  predicate NoSpace(s: string) {
    forall k :: 0 <= k < |s| ==> !IsSpace(s[k])
  }

  /** `toLowerCase` on one character, restricted to the ASCII letters. */
  function ToLowerChar(c: char): (r: char)
    ensures !IsUpper(r)
    ensures IsUpper(c) ==> r as int == c as int + 32
    ensures !IsUpper(c) ==> r == c
    ensures IsSpace(r) <==> IsSpace(c)
  {
    if IsUpper(c) then (c as int + 32) as char else c
  }

  /** `toLowerCase`: the same characters with every upper-case letter
      replaced by its lower-case partner. */
  function ToLower(s: string): (r: string)
    ensures |r| == |s|
    ensures forall k :: 0 <= k < |s| ==> r[k] == ToLowerChar(s[k])
    ensures LowerCase(r)
  {
    seq(|s|, k requires 0 <= k < |s| => ToLowerChar(s[k]))
  }

  /** `trimStart`: the suffix left after the longest white-space prefix. */
  function TrimStart(s: string): (r: string)
    ensures |r| <= |s| && r == s[|s| - |r|..]
    ensures forall k :: 0 <= k < |s| - |r| ==> IsSpace(s[k])
    ensures r == [] || !IsSpace(r[0])
  {
    if s != [] && IsSpace(s[0]) then TrimStart(s[1..]) else s
  }

  /** `trimEnd`: the prefix left after the longest white-space suffix. */
  function TrimEnd(s: string): (r: string)
    ensures |r| <= |s| && r == s[..|r|]
    ensures forall k :: |r| <= k < |s| ==> IsSpace(s[k])
    ensures r == [] || !IsSpace(r[|r| - 1])
  {
    if s != [] && IsSpace(s[|s| - 1]) then TrimEnd(s[..|s| - 1]) else s
  }

  /** `trim`: neither leading nor trailing white space is left. */
  function Trim(s: string): string {
    TrimEnd(TrimStart(s))
  }

  /** The field normalisation of the subscribe handler: trim, then lower-case. */
  function Normalise(s: string): string {
    ToLower(Trim(s))
  }

  /** A string with no white space at either end. */
  predicate Trimmed(s: string) {
    s == [] || (!IsSpace(s[0]) && !IsSpace(s[|s| - 1]))
  }

  /** Trimming leaves exactly the part between the white space at the two
      ends, and a string with none there is left alone. */
  lemma TrimSpec(s: string)
    ensures Trimmed(Trim(s))
    ensures Trimmed(s) ==> Trim(s) == s
    ensures exists i, j :: 0 <= i <= j <= |s| && Trim(s) == s[i..j]
  {
    TrimSlice(s);
    TrimIsTrimmed(s);
    if Trimmed(s) {
      TrimmedFixed(s);
    }
  }

  lemma {:induction false} TrimSlice(s: string)
    ensures var i := |s| - |TrimStart(s)|; Trim(s) == s[i..i + |Trim(s)|]
  {
    var t := TrimStart(s);
    var r := TrimEnd(t);
    assert r == t[..|r|];
  }

  lemma {:induction false} TrimIsTrimmed(s: string)
    ensures Trimmed(Trim(s))
  {
    var t := TrimStart(s);
    var r := TrimEnd(t);
    if r != [] {
      assert r[0] == t[0];
    }
  }

  lemma {:induction false} TrimmedFixed(s: string)
    requires Trimmed(s)
    ensures Trim(s) == s
  {
    if s != [] {
      assert TrimStart(s) == s;
    }
  }

  /** Normalising twice gives what normalising once does. */
  lemma {:induction false} NormaliseIdempotent(s: string)
    ensures Normalise(Normalise(s)) == Normalise(s)
  {
    var t := Trim(s);
    var u := ToLower(t);
    TrimSpec(s);
    assert Trimmed(u) by {
      if u != [] {
        assert IsSpace(u[0]) <==> IsSpace(t[0]);
        assert IsSpace(u[|u| - 1]) <==> IsSpace(t[|t| - 1]);
      }
    }
    TrimSpec(u);
    LowerFixed(u);
  }

  /** A string without upper-case letters is its own lower-case form. */
  lemma LowerFixed(u: string)
    requires LowerCase(u)
    ensures ToLower(u) == u
  {
    assert forall k :: 0 <= k < |u| ==> ToLower(u)[k] == u[k];
  }

  /** A normalised string has no white space at its ends and no upper-case
      letter. */
  lemma NormaliseShape(s: string)
    ensures Trimmed(Normalise(s))
    ensures LowerCase(Normalise(s))
  {
    TrimSpec(s);
  }

  /** The UTF-16 code units of `c`: two for a character outside the Basic
      Multilingual Plane, one for any other. */
  function Utf16Units(c: char): nat {
    if c as int > 0xFFFF then 2 else 1
  }

  /** `s.length`: the number of UTF-16 code units of `s`. */
  function Utf16Length(s: string): nat
    decreases |s|
  {
    if s == [] then 0 else Utf16Length(s[..|s| - 1]) + Utf16Units(s[|s| - 1])
  }

  /** The length of two strings together is the sum of their lengths. */
  lemma {:induction false} Utf16Append(a: string, b: string)
    ensures Utf16Length(a + b) == Utf16Length(a) + Utf16Length(b)
    decreases |b|
  {
    if b != [] {
      var b0 := b[..|b| - 1];
      Utf16Append(a, b0);
      assert (a + b)[..|a + b| - 1] == a + b0;
      assert (a + b)[|a + b| - 1] == b[|b| - 1];
    } else {
      assert a + b == a;
    }
  }

  /** A string has at least as many code units as characters and at most
      twice as many; exactly as many when every character lies in the
      Basic Multilingual Plane. */
  lemma {:induction false} Utf16Bounds(s: string)
    ensures |s| <= Utf16Length(s) <= 2 * |s|
    ensures (forall k :: 0 <= k < |s| ==> s[k] as int <= 0xFFFF) ==> Utf16Length(s) == |s|
    decreases |s|
  {
    if s != [] {
      var t := s[..|s| - 1];
      Utf16Bounds(t);
      assert forall k :: 0 <= k < |t| ==> t[k] == s[k];
    }
  }

  /** The first position of `c`, or `|s|` when there is none. */
  function IndexOf(s: string, c: char): (r: nat)
    ensures r <= |s|
    ensures r < |s| ==> s[r] == c
    ensures forall k :: 0 <= k < r ==> s[k] != c
  {
    if s == [] then 0 else if s[0] == c then 0 else 1 + IndexOf(s[1..], c)
  }

  /** The last position of `c`, or -1 when there is none. */
  function LastIndexOf(s: string, c: char): (r: int)
    ensures -1 <= r < |s|
    ensures r >= 0 ==> s[r] == c
    ensures forall k :: r < k < |s| ==> s[k] != c
  {
    if s == [] then -1
    else if s[|s| - 1] == c then |s| - 1
    else LastIndexOf(s[..|s| - 1], c)
  }

  /** `startsWith` */
  predicate StartsWith(s: string, prefix: string) {
    |prefix| <= |s| && s[..|prefix|] == prefix
  }

  /** The first occurrence of `c` in `a + [c] + b`, when `a` has none, is the
      one between them. */
  lemma {:induction false} IndexOfAfter(a: string, c: char, b: string)
    requires c !in a
    ensures IndexOf(a + [c] + b, c) == |a|
  {
    var s := a + [c] + b;
    assert s[|a|] == c;
    assert forall k :: 0 <= k < |a| ==> s[k] == a[k];
  }
}
