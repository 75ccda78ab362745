/**
 * The two string operations name de-duplication relies on: lower-casing and
 * trimming surrounding whitespace. Both are ASCII-only here.
 */
module Text {

  /** The ASCII characters trim removes: space, tab, line feed, vertical tab, form feed, carriage return. */
  predicate IsSpace(c: char) {
    c == ' ' || c == '\t' || c == '\n' || c == '\U{B}' || c == '\U{C}' || c == '\r'
  }

  predicate AllSpace(s: string) {
    forall k :: 0 <= k < |s| ==> IsSpace(s[k])
  }

  /** `r` is what is left of `s` between a whitespace prefix and a whitespace suffix. */
  predicate TrimmedFrom(r: string, s: string) {
    exists i, j :: 0 <= i <= j <= |s| && r == s[i..j] && AllSpace(s[..i]) && AllSpace(s[j..])
  }

  predicate IsUpper(c: char) {
    'A' <= c <= 'Z'
  }

  function LowerChar(c: char): char {
    if IsUpper(c) then (c as int + 32) as char else c
  }

  function Lower(s: string): (r: string)
    ensures |r| == |s|
    ensures forall i :: 0 <= i < |s| ==> r[i] == LowerChar(s[i])
    ensures forall i :: 0 <= i < |r| ==> !IsUpper(r[i])
  {
    if s == [] then [] else [LowerChar(s[0])] + Lower(s[1..])
  }

  /** Drops leading whitespace; TrimStartSuffix says that what is left is a suffix of `s`. */
  function TrimStart(s: string): (r: string)
    ensures |r| <= |s|
    ensures r == [] || !IsSpace(r[0])
    ensures forall i :: 0 <= i < |s| - |r| ==> IsSpace(s[i])
  {
    if s != [] && IsSpace(s[0]) then TrimStart(s[1..]) else s
  }

  /** Drops trailing whitespace; what is left is a prefix of `s`. */
  function TrimEnd(s: string): (r: string)
    ensures |r| <= |s| && forall i :: 0 <= i < |r| ==> r[i] == s[i]
    ensures r == [] || !IsSpace(r[|r| - 1])
    ensures forall i :: |r| <= i < |s| ==> IsSpace(s[i])
  {
    if s != [] && IsSpace(s[|s| - 1]) then TrimEnd(s[..|s| - 1]) else s
  }

  /** `trim`: neither starts nor ends with whitespace; TrimKeepsMiddle says what of `s` it keeps. */
  function Trim(s: string): (r: string)
    ensures r == [] || (!IsSpace(r[0]) && !IsSpace(r[|r| - 1]))
  {
    TrimEnd(TrimStart(s))
  }

  lemma {:induction false} TrimStartSuffix(s: string)
    ensures TrimStart(s) == s[|s| - |TrimStart(s)|..]
    decreases |s|
  {
    if s != [] && IsSpace(s[0]) {
      TrimStartSuffix(s[1..]);
    }
  }

  /** What trim keeps is the middle of `s`, between a whitespace prefix and a whitespace suffix. */
  lemma TrimKeepsMiddle(s: string)
    ensures TrimmedFrom(Trim(s), s)
  {
    var t := TrimStart(s);
    var r := TrimEnd(t);
    var i := |s| - |t|;
    TrimStartSuffix(s);
    assert t == s[i..];
    assert r == t[..|r|] == s[i..i + |r|];
    assert AllSpace(s[..i]);
    var u := s[i + |r|..];
    forall k | 0 <= k < |u| ensures IsSpace(u[k]) {
      assert u[k] == t[|r| + k];
    }
  }

  /** Two names denote the same entity for an import when they agree up to case and surrounding whitespace. */
  function NameKey(s: string): string {
    Trim(Lower(s))
  }

  lemma {:induction false} LowerTrimStart(s: string)
    ensures Lower(TrimStart(s)) == TrimStart(Lower(s))
    decreases |s|
  {
    var l := Lower(s);
    if s != [] && IsSpace(s[0]) {
      assert IsSpace(l[0]);
      assert l[1..] == Lower(s[1..]);
      calc {
        Lower(TrimStart(s));
        Lower(TrimStart(s[1..]));
        { LowerTrimStart(s[1..]); }
        TrimStart(Lower(s[1..]));
        TrimStart(l);
      }
    } else if s != [] {
      assert !IsSpace(l[0]);
    }
  }

  lemma {:induction false} LowerTrimEnd(s: string)
    ensures Lower(TrimEnd(s)) == TrimEnd(Lower(s))
    decreases |s|
  {
    if s != [] && IsSpace(s[|s| - 1]) {
      var init := s[..|s| - 1];
      LowerTrimEnd(init);
      LowerPrefix(s, |s| - 1);
      assert IsSpace(Lower(s)[|s| - 1]);
    } else if s != [] {
      assert !IsSpace(Lower(s)[|s| - 1]);
    }
  }

  lemma LowerPrefix(s: string, n: int)
    requires 0 <= n <= |s|
    ensures Lower(s[..n]) == Lower(s)[..n]
  {
  }

  /** Lower-casing and trimming commute. */
  lemma LowerTrimCommute(s: string)
    ensures Lower(Trim(s)) == Trim(Lower(s))
  {
    LowerTrimEnd(TrimStart(s));
    LowerTrimStart(s);
  }

  lemma TrimIdempotent(s: string)
    ensures Trim(Trim(s)) == Trim(s)
  {
    var u := Trim(s);
    assert TrimStart(u) == u;
    assert TrimEnd(u) == u;
  }

  /** A trimmed name has the key of the untrimmed one: the name addCard or addCharacter stores matches the name asked for. */
  lemma NameKeyOfTrim(s: string)
    ensures NameKey(Trim(s)) == NameKey(s)
  {
    LowerTrimCommute(s);
    TrimIdempotent(Lower(s));
  }

  /** Lower-casing is idempotent: a key made by lower-casing is its own lower-cased form. */
  lemma LowerIdempotent(s: string)
    ensures Lower(Lower(s)) == Lower(s)
  {
  }

  /** A trimmed name lower-cases to a string with no surrounding whitespace. */
  lemma LowerOfTrimTrimmed(s: string)
    ensures Lower(Trim(s)) == Trim(Lower(s))
    ensures Trim(Lower(Trim(s))) == Lower(Trim(s))
  {
    LowerTrimCommute(s);
    TrimIdempotent(Lower(s));
  }

  /** Names equal after lower-casing share a key. */
  lemma NameKeyOfLower(a: string, b: string)
    requires Lower(a) == Lower(b)
    ensures NameKey(a) == NameKey(b)
  {
  }
}
