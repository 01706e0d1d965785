/** The string primitives the account controller leans on: ECMAScript
    `String.prototype.trim`, lower-casing, and the case-insensitive
    comparison used by the duplicate check. */
module Text {

  /** ECMAScript WhiteSpace or LineTerminator: what `trim` strips and what
      the regular-expression class `\s` matches. */
  predicate IsSpace(c: char) {
    var n := c as int;
    n == 0x09 || n == 0x0A || n == 0x0B || n == 0x0C || n == 0x0D || n == 0x20
    || n == 0xA0 || n == 0x1680 || (0x2000 <= n <= 0x200A) || n == 0x2028
    || n == 0x2029 || n == 0x202F || n == 0x205F || n == 0x3000 || n == 0xFEFF
  }

  /** The characters a regular-expression `.` does not match (no `s` flag). */
  predicate IsLineTerminator(c: char) {
    c == '\n' || c == '\r' || c as int == 0x2028 || c as int == 0x2029
  }

  predicate AllSpace(s: string) {
    forall i :: 0 <= i < |s| ==> IsSpace(s[i])
  }

  /** Neither end of `s` is whitespace. */
  predicate IsTrimmed(s: string) {
    s == [] || (!IsSpace(s[0]) && !IsSpace(s[|s| - 1]))
  }

  /** `String.prototype.trim`: whitespace is stripped from both ends until
      neither end is whitespace (TrimIsSlice says what is cut away). */
  function Trim(s: string): (r: string)
    ensures IsTrimmed(r)
    decreases |s|
  {
    if s != [] && IsSpace(s[0]) then Trim(s[1..])
    else if s != [] && IsSpace(s[|s| - 1]) then Trim(s[..|s| - 1])
    else s
  }

  /** The result of `trim` is a slice of its input with only whitespace
      cut away on either side. */
  lemma {:induction false} TrimIsSlice(s: string) returns (i: nat, j: nat)
    ensures i <= j <= |s| && Trim(s) == s[i..j] && AllSpace(s[..i]) && AllSpace(s[j..])
    decreases |s|
  {
    if s != [] && IsSpace(s[0]) {
      var i', j' := TrimIsSlice(s[1..]);
      i, j := i' + 1, j' + 1;
      SliceOfTail(s, i', j');
    } else if s != [] && IsSpace(s[|s| - 1]) {
      i, j := TrimIsSlice(s[..|s| - 1]);
      SliceOfFront(s, i, j);
    } else {
      i, j := 0, |s|;
      assert s[..i] == [] && s[j..] == [];
    }
  }

  /** A slice of `s[1..]` with whitespace around it, when `s[0]` is
      whitespace too, is a slice of `s` with whitespace around it. */
  lemma SliceOfTail(s: string, i: nat, j: nat)
    requires s != [] && IsSpace(s[0]) && i <= j <= |s| - 1
    requires AllSpace(s[1..][..i]) && AllSpace(s[1..][j..])
    ensures s[1..][i..j] == s[i + 1..j + 1]
    ensures AllSpace(s[..i + 1]) && AllSpace(s[j + 1..])
  {
    var t := s[1..];
    AllSpaceCons(s[0], t[..i]);
    assert s[..i + 1] == [s[0]] + t[..i];
    assert t[j..] == s[j + 1..];
  }

  /** The same for a slice of `s[..|s| - 1]` when the last character of `s`
      is whitespace. */
  lemma SliceOfFront(s: string, i: nat, j: nat)
    requires s != [] && IsSpace(s[|s| - 1]) && i <= j <= |s| - 1
    requires AllSpace(s[..|s| - 1][..i]) && AllSpace(s[..|s| - 1][j..])
    ensures s[..|s| - 1][i..j] == s[i..j]
    ensures AllSpace(s[..i]) && AllSpace(s[j..])
  {
    var t := s[..|s| - 1];
    assert t[..i] == s[..i];
    AllSpaceSnoc(t[j..], s[|s| - 1]);
    assert s[j..] == t[j..] + [s[|s| - 1]];
  }

  lemma AllSpaceCons(c: char, s: string)
    requires IsSpace(c) && AllSpace(s)
    ensures AllSpace([c] + s)
  {
    var t := [c] + s;
    forall k | 0 <= k < |t| ensures IsSpace(t[k]) {
      if k > 0 { assert t[k] == s[k - 1]; }
    }
  }

  lemma AllSpaceSnoc(s: string, c: char)
    requires IsSpace(c) && AllSpace(s)
    ensures AllSpace(s + [c])
  {
    var t := s + [c];
    forall k | 0 <= k < |t| ensures IsSpace(t[k]) {
      if k < |s| { assert t[k] == s[k]; }
    }
  }

  /** A field is blank exactly when it is whitespace only: this is the
      `!field` test applied after `trim()`. */
  lemma {:induction false} TrimEmptyIff(s: string)
    ensures Trim(s) == [] <==> AllSpace(s)
    decreases |s|
  {
    if s != [] && IsSpace(s[0]) {
      TrimEmptyIff(s[1..]);
      assert AllSpace(s) <==> AllSpace(s[1..]) by {
        if AllSpace(s[1..]) {
          forall k | 0 <= k < |s| ensures IsSpace(s[k]) {
            if k > 0 { assert s[k] == s[1..][k - 1]; }
          }
        }
      }
    } else if s != [] && IsSpace(s[|s| - 1]) {
      TrimEmptyIff(s[..|s| - 1]);
      assert AllSpace(s) <==> AllSpace(s[..|s| - 1]) by {
        if AllSpace(s[..|s| - 1]) {
          forall k | 0 <= k < |s| ensures IsSpace(s[k]) {
            if k < |s| - 1 { assert s[k] == s[..|s| - 1][k]; }
          }
        }
      }
    }
  }

  /** Trimming a string that is already trimmed changes nothing. */
  lemma {:induction false} TrimOfTrimmed(s: string)
    requires IsTrimmed(s)
    ensures Trim(s) == s
  {
  }

  /** `trim` is idempotent. */
  lemma TrimIdempotent(s: string)
    ensures Trim(Trim(s)) == Trim(s)
  {
    TrimOfTrimmed(Trim(s));
  }

  /** ASCII lower-casing of one character. */
  function LowerChar(c: char): char {
    if 'A' <= c <= 'Z' then (c as int + 32) as char else c
  }

  /** `String.prototype.toLowerCase`, restricted to ASCII letters: every
      character is lower-cased in place and the length is kept. */
  function ToLower(s: string): (r: string)
    ensures |r| == |s|
    ensures forall i :: 0 <= i < |s| ==> r[i] == LowerChar(s[i])
  {
    if s == [] then [] else [LowerChar(s[0])] + ToLower(s[1..])
  }

  /** Lower-casing twice is lower-casing once. */
  lemma ToLowerIdempotent(s: string)
    ensures ToLower(ToLower(s)) == ToLower(s)
  {
  }

  /** The anchored, case-insensitive match the duplicate check intends. */
  predicate EqualsIgnoreCase(a: string, b: string) {
    ToLower(a) == ToLower(b)
  }
}
