/** The address-format check `validateEmail`: one anchored regular
    expression, tested against the lower-cased input. The expression is
    taken apart here into the grammar it denotes,

        address  ::= local "@" domain
        local    ::= dot-atom | quoted
        dot-atom ::= atom ("." atom)*
        quoted   ::= '"' any-non-newline+ '"'
        domain   ::= "[" group "." group "." group "." group "]"
                   | (label ".")+ top-label

    with an atom a run of characters other than `<>()[]\.,;:@"` and
    whitespace, a group one to three decimal digits, a label a run of ASCII
    letters, digits and hyphens, and a top label two or more ASCII letters.
    Backtracking makes the split at "@" existential: the address matches when
    SOME "@" splits it into a local part and a domain. */
module EmailFormat {
  import opened Text

  predicate IsSpecial(c: char) {
    c == '<' || c == '>' || c == '(' || c == ')' || c == '[' || c == ']' || c == '\\'
    || c == '.' || c == ',' || c == ';' || c == ':' || c == '@' || c == '"'
  }

  predicate IsAtomChar(c: char) {
    !IsSpecial(c) && !IsSpace(c)
  }

  predicate Atom(s: string) {
    |s| >= 1 && forall i :: 0 <= i < |s| ==> IsAtomChar(s[i])
  }

  /** One or more atoms joined by single dots. */
  predicate DotAtom(s: string)
    decreases |s|
  {
    Atom(s) || exists i | 0 < i < |s| :: s[i] == '.' && Atom(s[..i]) && DotAtom(s[i + 1..])
  }

  /** `".+"`: a double quote, at least one character other than a line
      terminator (a quote or an "@" among them is allowed), a double quote. */
  predicate Quoted(s: string) {
    |s| >= 3 && s[0] == '"' && s[|s| - 1] == '"'
    && forall i :: 0 < i < |s| - 1 ==> !IsLineTerminator(s[i])
  }

  predicate LocalPart(s: string) {
    DotAtom(s) || Quoted(s)
  }

  predicate IsDigit(c: char) {
    '0' <= c <= '9'
  }

  /** `[0-9]{1,3}`: the value is not range-checked, so "999" is a group. */
  predicate DigitGroup(s: string) {
    1 <= |s| <= 3 && forall i :: 0 <= i < |s| ==> IsDigit(s[i])
  }

  /** `[0-9]{1,3}\.[0-9]{1,3}`: two groups and the dot between them. */
  predicate DottedPair(s: string) {
    exists i | 0 < i < |s| :: s[i] == '.' && DigitGroup(s[..i]) && DigitGroup(s[i + 1..])
  }

  /** A group, a dot, and a dotted pair. */
  predicate DottedTriple(s: string) {
    exists i | 0 < i < |s| :: s[i] == '.' && DigitGroup(s[..i]) && DottedPair(s[i + 1..])
  }

  /** A group, a dot, and a dotted triple: four groups in all. */
  predicate DottedQuad(s: string) {
    exists i | 0 < i < |s| :: s[i] == '.' && DigitGroup(s[..i]) && DottedTriple(s[i + 1..])
  }

  /** A bracketed dotted quad. */
  predicate Ipv4Literal(s: string) {
    |s| >= 2 && s[0] == '[' && s[|s| - 1] == ']' && DottedQuad(s[1..|s| - 1])
  }

  predicate IsLetter(c: char) {
    'a' <= c <= 'z' || 'A' <= c <= 'Z'
  }

  predicate IsLabelChar(c: char) {
    IsLetter(c) || IsDigit(c) || c == '-'
  }

  predicate Label(s: string) {
    |s| >= 1 && forall i :: 0 <= i < |s| ==> IsLabelChar(s[i])
  }

  predicate TopLabel(s: string) {
    |s| >= 2 && forall i :: 0 <= i < |s| ==> IsLetter(s[i])
  }

  /** `([a-zA-Z\-0-9]+\.)+[a-zA-Z]{2,}`: one or more labels, each followed
      by a dot, then a top label. */
  predicate HostName(s: string)
    decreases |s|
  {
    exists i | 0 < i < |s| :: s[i] == '.' && Label(s[..i]) && (TopLabel(s[i + 1..]) || HostName(s[i + 1..]))
  }

  predicate Domain(s: string) {
    Ipv4Literal(s) || HostName(s)
  }

  /** The whole anchored expression, on a string already lower-cased. */
  predicate MatchesAddress(s: string) {
    exists i | 0 <= i < |s| :: s[i] == '@' && LocalPart(s[..i]) && Domain(s[i + 1..])
  }

  /** `validateEmail(email)`: the expression is tested against the
      lower-cased input. */
  predicate ValidateEmail(email: string) {
    MatchesAddress(ToLower(email))
  }

  // ---------------------------------------------------------------------
  // Reference definitions: the same languages described character by
  // character, with no recursion, and the lemmas that the grammar above
  // accepts exactly them. The quoted local part is already described
  // character by character and is shared.

  predicate NoDoubleDot(s: string) {
    forall i :: 0 <= i < |s| - 1 ==> !(s[i] == '.' && s[i + 1] == '.')
  }

  /** Non-empty, no dot at either end, no two dots in a row, and every
      other character an atom character. */
  predicate DotAtomFlat(s: string) {
    |s| >= 1 && s[0] != '.' && s[|s| - 1] != '.' && NoDoubleDot(s)
    && forall i :: 0 <= i < |s| ==> s[i] == '.' || IsAtomChar(s[i])
  }

  /** Label characters and dots only, no leading dot, no two dots in a row,
      and some dot followed only by two or more letters. */
  predicate HostNameFlat(s: string) {
    |s| >= 1 && s[0] != '.' && NoDoubleDot(s)
    && (forall i :: 0 <= i < |s| ==> s[i] == '.' || IsLabelChar(s[i]))
    && exists k :: 0 <= k < |s| - 2 && s[k] == '.' && forall j :: k < j < |s| ==> IsLetter(s[j])
  }

  /** Every character in `s[lo..hi]` is a digit. */
  predicate DigitsIn(s: string, lo: int, hi: int)
    requires 0 <= lo <= hi <= |s|
  {
    forall p :: lo <= p < hi ==> IsDigit(s[p])
  }

  /** Dots at positions `a < b < c`, one to three digits before, between
      and after them, and nothing else. */
  predicate DotsAt(s: string, a: int, b: int, c: int) {
    && 0 < a < b < c < |s|
    && s[a] == '.' && s[b] == '.' && s[c] == '.'
    && a <= 3 && b - a - 1 <= 3 && c - b - 1 <= 3 && |s| - c - 1 <= 3
    && a + 1 < b && b + 1 < c && c + 1 < |s|
    && DigitsIn(s, 0, a) && DigitsIn(s, a + 1, b) && DigitsIn(s, b + 1, c) && DigitsIn(s, c + 1, |s|)
  }

  /** Digits with exactly three dots, none first, last or next to another,
      and no run of more than three digits. */
  predicate DottedQuadFlat(s: string) {
    exists a, b, c | 0 < a < b < c < |s| :: DotsAt(s, a, b, c)
  }

  /** A bracketed dotted quad in the reference description. */
  predicate Ipv4LiteralFlat(s: string) {
    |s| >= 2 && s[0] == '[' && s[|s| - 1] == ']' && DottedQuadFlat(s[1..|s| - 1])
  }

  /** The whole expression in the reference description. */
  predicate MatchesAddressFlat(s: string) {
    exists i | 0 <= i < |s| :: s[i] == '@' && FlatLocalPart(s[..i]) && FlatDomain(s[i + 1..])
  }

  /** A local part in the reference description. */
  predicate FlatLocalPart(s: string) {
    DotAtomFlat(s) || Quoted(s)
  }

  /** A domain in the reference description. */
  predicate FlatDomain(s: string) {
    Ipv4LiteralFlat(s) || HostNameFlat(s)
  }

  /** An atom, a dot at `i`, and a flat dot-atom after it make a flat
      dot-atom. */
  lemma DotAtomFlatJoin(s: string, i: nat)
    requires 0 < i < |s| && s[i] == '.' && Atom(s[..i]) && DotAtomFlat(s[i + 1..])
    ensures DotAtomFlat(s)
  {
    var a, t := s[..i], s[i + 1..];
    assert forall j :: 0 <= j < i ==> s[j] == a[j];
    assert forall j :: i < j < |s| ==> s[j] == t[j - i - 1];
    forall j | 0 <= j < |s| - 1
      ensures !(s[j] == '.' && s[j + 1] == '.')
    {
      if j > i { assert s[j] == t[j - i - 1] && s[j + 1] == t[j - i]; }
    }
  }

  /** Cutting a flat dot-atom at its first dot gives an atom and a flat rest. */
  lemma DotAtomFlatSplit(s: string, i: nat)
    requires DotAtomFlat(s) && i < |s| && s[i] == '.' && forall j :: 0 <= j < i ==> s[j] != '.'
    ensures 0 < i < |s| - 1 && Atom(s[..i]) && DotAtomFlat(s[i + 1..])
  {
    var t := s[i + 1..];
    assert forall j :: 0 <= j < |t| ==> t[j] == s[j + i + 1];
  }

  lemma {:induction false} DotAtomIff(s: string)
    ensures DotAtom(s) <==> DotAtomFlat(s)
  {
    if DotAtom(s) {
      DotAtomIsFlat(s);
    }
    if DotAtomFlat(s) {
      FlatIsDotAtom(s);
    }
  }

  lemma {:induction false} DotAtomIsFlat(s: string)
    requires DotAtom(s)
    ensures DotAtomFlat(s)
    decreases |s|
  {
    if !Atom(s) {
      var i :| 0 < i < |s| && s[i] == '.' && Atom(s[..i]) && DotAtom(s[i + 1..]);
      DotAtomIsFlat(s[i + 1..]);
      DotAtomFlatJoin(s, i);
    }
  }

  lemma {:induction false} FlatIsDotAtom(s: string)
    requires DotAtomFlat(s)
    ensures DotAtom(s)
    decreases |s|
  {
    if !Atom(s) {
      var d :| 0 <= d < |s| && !IsAtomChar(s[d]);
      var i := FirstDot(s, d);
      DotAtomFlatSplit(s, i);
      FlatIsDotAtom(s[i + 1..]);
    }
  }

  /** The first dot of a string that has one. */
  lemma {:induction false} FirstDot(s: string, d: nat) returns (i: nat)
    requires d < |s| && s[d] == '.'
    ensures i <= d && s[i] == '.' && forall j :: 0 <= j < i ==> s[j] != '.'
    decreases d
  {
    if j :| 0 <= j < d && s[j] == '.' {
      i := FirstDot(s, j);
    } else {
      i := d;
    }
  }

  /** A label, a dot at `i`, and a top label after it make a flat host
      name. */
  lemma HostNameFlatJoinTop(s: string, i: nat)
    requires 0 < i < |s| && s[i] == '.' && Label(s[..i]) && TopLabel(s[i + 1..])
    ensures HostNameFlat(s)
  {
    var a, t := s[..i], s[i + 1..];
    assert forall j :: 0 <= j < i ==> s[j] == a[j];
    assert forall j :: i < j < |s| ==> s[j] == t[j - i - 1];
    assert 0 <= i < |s| - 2 && forall j :: i < j < |s| ==> IsLetter(s[j]);
  }

  /** A label, a dot at `i`, and a flat host name after it make a flat host
      name. */
  lemma HostNameFlatJoin(s: string, i: nat)
    requires 0 < i < |s| && s[i] == '.' && Label(s[..i]) && HostNameFlat(s[i + 1..])
    ensures HostNameFlat(s)
  {
    var a, t := s[..i], s[i + 1..];
    assert forall j :: 0 <= j < i ==> s[j] == a[j];
    assert forall j :: i < j < |s| ==> s[j] == t[j - i - 1];
    forall j | 0 <= j < |s| - 1
      ensures !(s[j] == '.' && s[j + 1] == '.')
    {
      if j > i { assert s[j] == t[j - i - 1] && s[j + 1] == t[j - i]; }
    }
    var k :| 0 <= k < |t| - 2 && t[k] == '.' && forall j :: k < j < |t| ==> IsLetter(t[j]);
    assert 0 <= k + i + 1 < |s| - 2 && s[k + i + 1] == '.';
    assert forall j :: k + i + 1 < j < |s| ==> IsLetter(s[j]);
  }

  /** Cutting a flat host name at its first dot gives a label and either a
      top label or a flat host name. */
  lemma HostNameFlatSplit(s: string, i: nat)
    requires HostNameFlat(s) && i < |s| && s[i] == '.' && forall j :: 0 <= j < i ==> s[j] != '.'
    ensures 0 < i < |s| && Label(s[..i])
    ensures TopLabel(s[i + 1..]) || HostNameFlat(s[i + 1..])
  {
    var t := s[i + 1..];
    assert forall j :: 0 <= j < |t| ==> t[j] == s[j + i + 1];
    var k :| 0 <= k < |s| - 2 && s[k] == '.' && forall j :: k < j < |s| ==> IsLetter(s[j]);
    if i == k {
      assert TopLabel(t);
    } else {
      assert 0 <= k - i - 1 < |t| - 2 && t[k - i - 1] == '.';
      assert HostNameFlat(t);
    }
  }

  lemma {:induction false} HostNameIff(s: string)
    ensures HostName(s) <==> HostNameFlat(s)
  {
    if HostName(s) {
      HostNameIsFlat(s);
    }
    if HostNameFlat(s) {
      FlatIsHostName(s);
    }
  }

  lemma {:induction false} HostNameIsFlat(s: string)
    requires HostName(s)
    ensures HostNameFlat(s)
    decreases |s|
  {
    var i :| 0 < i < |s| && s[i] == '.' && Label(s[..i]) && (TopLabel(s[i + 1..]) || HostName(s[i + 1..]));
    if TopLabel(s[i + 1..]) {
      HostNameFlatJoinTop(s, i);
    } else {
      HostNameIsFlat(s[i + 1..]);
      HostNameFlatJoin(s, i);
    }
  }

  lemma {:induction false} FlatIsHostName(s: string)
    requires HostNameFlat(s)
    ensures HostName(s)
    decreases |s|
  {
    var k :| 0 <= k < |s| - 2 && s[k] == '.' && forall j :: k < j < |s| ==> IsLetter(s[j]);
    var i := FirstDot(s, k);
    HostNameFlatSplit(s, i);
    if !TopLabel(s[i + 1..]) {
      FlatIsHostName(s[i + 1..]);
    }
  }

  /** `validateEmail` agrees with the reference description: some "@" of
      the lower-cased input splits it into a dot-atom or quoted local part
      and a dotted-quad literal or host name. */
  lemma ValidateEmailIff(email: string)
    ensures ValidateEmail(email) <==> MatchesAddressFlat(ToLower(email))
  {
    var s := ToLower(email);
    if MatchesAddress(s) {
      var i :| 0 <= i < |s| && s[i] == '@' && LocalPart(s[..i]) && Domain(s[i + 1..]);
      FlatParts(s[..i], s[i + 1..]);
      assert s[i] == '@' && FlatLocalPart(s[..i]) && FlatDomain(s[i + 1..]);
    }
    if MatchesAddressFlat(s) {
      var i :| 0 <= i < |s| && s[i] == '@' && FlatLocalPart(s[..i]) && FlatDomain(s[i + 1..]);
      FlatParts(s[..i], s[i + 1..]);
      assert s[i] == '@' && LocalPart(s[..i]) && Domain(s[i + 1..]);
    }
  }

  lemma FlatParts(local: string, domain: string)
    ensures LocalPart(local) <==> FlatLocalPart(local)
    ensures Domain(domain) <==> FlatDomain(domain)
  {
    DotAtomIff(local);
    HostNameIff(domain);
    Ipv4LiteralIff(domain);
  }

  /** The grammar's dotted quad is exactly the reference one. */
  lemma Ipv4LiteralIff(s: string)
    ensures Ipv4Literal(s) <==> Ipv4LiteralFlat(s)
  {
    if |s| >= 2 && s[0] == '[' && s[|s| - 1] == ']' {
      var body := s[1..|s| - 1];
      if DottedQuad(body) {
        var a, b, c := DottedQuadIsFlat(body);
      }
      if DottedQuadFlat(body) {
        var a, b, c :| 0 < a < b < c < |body| && DotsAt(body, a, b, c);
        FlatIsDottedQuad(body, a, b, c);
      }
    }
  }

  /** A slice is a digit group exactly when it has one to three
      characters, all digits. */
  lemma GroupInSlice(s: string, lo: nat, hi: nat)
    requires lo <= hi <= |s|
    ensures DigitGroup(s[lo..hi]) <==> 1 <= hi - lo <= 3 && DigitsIn(s, lo, hi)
  {
    assert forall p :: lo <= p < hi ==> s[p] == s[lo..hi][p - lo];
  }

  /** Four digit groups joined by dots have their dots where the reference
      description puts them. */
  lemma DottedQuadIsFlat(s: string) returns (a: nat, b: nat, c: nat)
    requires DottedQuad(s)
    ensures 0 < a < b < c < |s| && DotsAt(s, a, b, c)
  {
    var k := SplitQuad(s);
    assert s[0..] == s;
    GroupThenDot(s, 0, s, k);
    a := k;
    b, c := TripleAt(s, a + 1, s[a + 1..]);
  }

  /** The dot after the first group of a dotted quad. */
  lemma SplitQuad(t: string) returns (k: nat)
    requires DottedQuad(t)
    ensures 0 < k < |t| && t[k] == '.' && DigitGroup(t[..k]) && DottedTriple(t[k + 1..])
  {
    k :| 0 < k < |t| && t[k] == '.' && DigitGroup(t[..k]) && DottedTriple(t[k + 1..]);
  }

  /** A dotted triple `t` starting at `lo` in `s`: its two dots, with one
      to three digits before, between and after them. */
  lemma TripleAt(s: string, lo: nat, t: string) returns (i: nat, j: nat)
    requires lo <= |s| && t == s[lo..] && DottedTriple(t)
    ensures lo < i < j < |s| && s[i] == '.' && 1 <= i - lo <= 3 && DigitsIn(s, lo, i)
    ensures s[j] == '.' && 1 <= j - i - 1 <= 3 && DigitsIn(s, i + 1, j)
    ensures 1 <= |s| - j - 1 <= 3 && DigitsIn(s, j + 1, |s|)
  {
    var k := SplitTriple(t);
    GroupThenDot(s, lo, t, k);
    i := lo + k;
    j := PairAt(s, i + 1, t[k + 1..]);
  }

  /** The dot after the first group of a dotted triple. */
  lemma SplitTriple(t: string) returns (k: nat)
    requires DottedTriple(t)
    ensures 0 < k < |t| && t[k] == '.' && DigitGroup(t[..k]) && DottedPair(t[k + 1..])
  {
    k :| 0 < k < |t| && t[k] == '.' && DigitGroup(t[..k]) && DottedPair(t[k + 1..]);
  }

  /** The dot between the two groups of a dotted pair. */
  lemma SplitPair(t: string) returns (k: nat)
    requires DottedPair(t)
    ensures 0 < k < |t| && t[k] == '.' && DigitGroup(t[..k]) && DigitGroup(t[k + 1..])
  {
    k :| 0 < k < |t| && t[k] == '.' && DigitGroup(t[..k]) && DigitGroup(t[k + 1..]);
  }

  /** A digit group of `t == s[lo..]` ending at `k`, followed by a dot: the
      same group and dot seen as positions of `s`. */
  lemma GroupThenDot(s: string, lo: nat, t: string, k: nat)
    requires lo <= |s| && t == s[lo..] && 0 < k < |t| && t[k] == '.' && DigitGroup(t[..k])
    ensures s[lo + k] == '.' && 1 <= k <= 3 && DigitsIn(s, lo, lo + k)
    ensures t[k + 1..] == s[lo + k + 1..]
  {
    assert t[..k] == s[lo..lo + k];
    GroupInSlice(s, lo, lo + k);
  }

  /** Positions in the suffix `s[lo..]` are positions in `s` moved by `lo`. */
  lemma SliceOfSuffix(s: string, lo: nat, k: nat)
    requires lo + k < |s|
    ensures s[lo..][..k] == s[lo..lo + k] && s[lo..][k] == s[lo + k]
    ensures s[lo..][k + 1..] == s[lo + k + 1..] == s[lo + k + 1..|s|]
  {
  }

  /** A dotted pair `t` starting at `lo` in `s`: the digits of both groups
      and the dot between them. */
  lemma PairAt(s: string, lo: nat, t: string) returns (i: nat)
    requires lo <= |s| && t == s[lo..] && DottedPair(t)
    ensures lo < i < |s| && s[i] == '.' && 1 <= i - lo <= 3 && DigitsIn(s, lo, i)
    ensures 1 <= |s| - i - 1 <= 3 && DigitsIn(s, i + 1, |s|)
  {
    var k := SplitPair(t);
    GroupThenDot(s, lo, t, k);
    i := lo + k;
    assert s[i + 1..] == s[i + 1..|s|];
    GroupInSlice(s, i + 1, |s|);
  }

  /** A string with its dots where the reference description puts them is
      four digit groups joined by dots. */
  lemma FlatIsDottedQuad(s: string, a: nat, b: nat, c: nat)
    requires DotsAt(s, a, b, c)
    ensures DottedQuad(s)
  {
    PairFromDots(s, b + 1, c);
    TripleFromDots(s, a + 1, b);
    QuadFromDots(s, a);
  }

  /** One to three digits from `lo`, a dot at `c`, and one to three digits
      to the end: `s[lo..]` is a dotted pair. */
  lemma PairFromDots(s: string, lo: nat, c: nat)
    requires lo < c < |s| - 1 && s[c] == '.' && c - lo <= 3 && |s| - c - 1 <= 3
    requires DigitsIn(s, lo, c) && DigitsIn(s, c + 1, |s|)
    ensures DottedPair(s[lo..])
  {
    var t, k := s[lo..], c - lo;
    SliceOfSuffix(s, lo, k);
    GroupInSlice(s, lo, c);
    GroupInSlice(s, c + 1, |s|);
    assert t[k] == '.' && DigitGroup(t[..k]) && DigitGroup(t[k + 1..]);
  }

  /** One to three digits from `lo`, a dot at `b`, and a dotted pair after
      it: `s[lo..]` is a dotted triple. */
  lemma TripleFromDots(s: string, lo: nat, b: nat)
    requires lo < b < |s| && s[b] == '.' && b - lo <= 3 && DigitsIn(s, lo, b)
    requires DottedPair(s[b + 1..])
    ensures DottedTriple(s[lo..])
  {
    var t, k := s[lo..], b - lo;
    SliceOfSuffix(s, lo, k);
    GroupInSlice(s, lo, b);
    assert t[k] == '.' && DigitGroup(t[..k]) && DottedPair(t[k + 1..]);
  }

  /** One to three digits, a dot at `a`, and a dotted triple after it:
      `s` is a dotted quad. */
  lemma QuadFromDots(s: string, a: nat)
    requires 0 < a < |s| && s[a] == '.' && a <= 3 && DigitsIn(s, 0, a)
    requires DottedTriple(s[a + 1..])
    ensures DottedQuad(s)
  {
    assert s[..a] == s[0..a];
    GroupInSlice(s, 0, a);
    assert s[a] == '.' && DigitGroup(s[..a]) && DottedTriple(s[a + 1..]);
  }

  /** The check ignores case: inputs that lower-case alike are accepted
      or refused alike, and an input is accepted exactly when its
      lower-cased form is. */
  lemma ValidateEmailIgnoresCase(a: string, b: string)
    requires EqualsIgnoreCase(a, b)
    ensures ValidateEmail(a) == ValidateEmail(b)
    ensures ValidateEmail(a) == ValidateEmail(ToLower(a))
  {
    ToLowerIdempotent(a);
  }

  /** Any four groups of one to three digits make an accepted literal:
      there is no check that a group is at most 255. */
  lemma Ipv4LiteralOfGroups(a: string, b: string, c: string, d: string)
    requires DigitGroup(a) && DigitGroup(b) && DigitGroup(c) && DigitGroup(d)
    ensures Ipv4Literal("[" + (a + "." + (b + "." + (c + "." + d))) + "]")
  {
    var cd := c + "." + d;
    DotAfter(c, d);
    assert DottedPair(cd);
    var bcd := b + "." + cd;
    DotAfter(b, cd);
    assert DottedTriple(bcd);
    var abcd := a + "." + bcd;
    DotAfter(a, bcd);
    assert DottedQuad(abcd);
    BracketedLiteral(abcd);
  }

  /** Where the parts of `g + "." + rest` sit. */
  lemma DotAfter(g: string, rest: string)
    ensures var s := g + "." + rest; s[|g|] == '.' && s[..|g|] == g && s[|g| + 1..] == rest
  {
  }

  lemma BracketedLiteral(body: string)
    requires DottedQuad(body)
    ensures Ipv4Literal("[" + body + "]")
  {
    var s := "[" + body + "]";
    assert s[1..|s| - 1] == body;
  }

  /** A local part and a domain joined by "@" form an accepted address. */
  lemma MatchesAddressOfParts(local: string, domain: string)
    requires LocalPart(local) && Domain(domain)
    ensures MatchesAddress(local + "@" + domain)
  {
    var s := local + "@" + domain;
    assert s[|local|] == '@' && s[..|local|] == local && s[|local| + 1..] == domain;
  }

  /** A plain lower-case address is accepted. */
  lemma ValidateEmailExample()
    ensures ValidateEmail("a@b.com")
  {
    assert "a" + "@" + "b.com" == "a@b.com";
    ExampleIsLowerCase();
    ExampleLocalPart();
    ExampleDomain();
    MatchesAddressOfParts("a", "b.com");
  }

  lemma ExampleIsLowerCase()
    ensures ToLower("a@b.com") == "a@b.com"
  {
    var s := "a@b.com";
    assert forall i :: 0 <= i < |s| ==> LowerChar(s[i]) == s[i];
  }

  lemma ExampleLocalPart()
    ensures LocalPart("a")
  {
    assert Atom("a");
  }

  lemma ExampleDomain()
    ensures Domain("b.com")
  {
    var host := "b.com";
    assert host[1] == '.' && host[..1] == "b" && host[2..] == "com";
    assert Label("b") && TopLabel("com");
  }

  /** A literal whose groups are out of the 0-255 range is still accepted. */
  lemma UncheckedLiteral()
    ensures Ipv4Literal("[999.999.999.999]")
  {
    var g := "999";
    assert "[" + (g + "." + (g + "." + (g + "." + g))) + "]" == "[999.999.999.999]";
    assert DigitGroup(g);
    Ipv4LiteralOfGroups(g, g, g, g);
  }

  /** An address whose domain has no dot is refused. */
  lemma ValidateEmailRefusesBareHost()
    ensures !ValidateEmail("a@b")
  {
    assert ToLower("a@b") == "a@b";
    var s := "a@b";
    assert !Domain(s[2..]) by {
      assert s[2..] == "b";
    }
    assert !LocalPart(s[..0]);
    assert forall i | 0 <= i < |s| && s[i] == '@' :: i == 1;
  }
}
