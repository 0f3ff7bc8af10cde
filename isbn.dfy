/** The ISBN pattern that Book and BookDTO both carry, written out as a
    recognizer. The regular expression has three parts: an optional
    prefix "ISBN", "ISBN-10" or "ISBN-13" with an optional colon and a
    mandatory space; a look-ahead that fixes the shape of the remaining
    body (ten characters, thirteen, or seventeen); and the main pattern,
    an optional "978"/"979" group followed by four runs of digits with
    optional separators, the last run a single digit or X. */
module Isbn {
  import opened Wrappers

  predicate IsDigit(c: char) { '0' <= c <= '9' }

  /** The separators of the pattern: hyphen and space. */
  predicate IsSeparator(c: char) { c == '-' || c == ' ' }

  predicate IsCheckChar(c: char) { IsDigit(c) || c == 'X' }

  predicate AllDigits(s: string) {
    forall i :: 0 <= i < |s| ==> IsDigit(s[i])
  }

  /** The six prefixes `(?:ISBN(?:-1[03])?:? )`. */
  const Prefixes: seq<string> := ["ISBN ", "ISBN: ", "ISBN-10 ", "ISBN-10: ", "ISBN-13 ", "ISBN-13: "]

  /** `[0-9X]{10}$` */
  predicate TenShape(b: string) {
    |b| == 10 && forall i :: 0 <= i < |b| ==> IsCheckChar(b[i])
  }

  /** The length of the run of digits at the start of `b`. */
  function DigitRun(b: string): (j: nat)
    ensures j <= |b|
  {
    if |b| > 0 && IsDigit(b[0]) then 1 + DigitRun(b[1..]) else 0
  }

  /** DigitRun stops at the first character that is not a digit. */
  lemma {:induction false} DigitRunFacts(b: string)
    ensures AllDigits(b[..DigitRun(b)])
    ensures DigitRun(b) < |b| ==> !IsDigit(b[DigitRun(b)])
  {
    if |b| > 0 && IsDigit(b[0]) {
      DigitRunFacts(b[1..]);
      var j := DigitRun(b);
      assert forall i :: 1 <= i < j ==> b[..j][i] == b[1..][..j - 1][i - 1];
    }
  }

  /** `(?:[0-9]+[- ]){n}` at the start of `b`: n runs of digits, each
      followed by one separator. A separator is not a digit, so each run
      is the whole run of digits at that point. */
  predicate Groups(b: string, n: nat)
    decreases n
  {
    if n == 0 then true
    else
      var j := DigitRun(b);
      1 <= j < |b| && IsSeparator(b[j]) && Groups(b[j + 1..], n - 1)
  }

  /** The run in a group is determined: whatever run of digits followed
      by a separator is chosen, it is the one Groups uses. */
  lemma GroupsAnyRun(b: string, n: nat, j: nat)
    requires n > 0 && 1 <= j < |b| && AllDigits(b[..j]) && IsSeparator(b[j])
    ensures Groups(b, n) <==> Groups(b[j + 1..], n - 1)
  {
    DigitRunIs(b, j);
  }

  /** A run of j digits followed by a non-digit is the run DigitRun finds. */
  lemma {:induction false} DigitRunIs(b: string, j: nat)
    requires j < |b| && AllDigits(b[..j]) && !IsDigit(b[j])
    ensures DigitRun(b) == j
  {
    if j > 0 {
      assert IsDigit(b[..j][0]);
      assert b[1..][..j - 1] == b[..j][1..];
      DigitRunIs(b[1..], j - 1);
    }
  }

  /** `(?=(?:[0-9]+[- ]){3})[- 0-9X]{13}$` */
  predicate ThirteenGrouped(b: string) {
    Groups(b, 3) && |b| == 13 && forall i :: 0 <= i < |b| ==> IsCheckChar(b[i]) || IsSeparator(b[i])
  }

  /** `97[89]`: the EAN prefix of a thirteen-digit ISBN, at the start of `b`. */
  predicate BooklandPrefix(b: string) {
    |b| >= 3 && b[0] == '9' && b[1] == '7' && (b[2] == '8' || b[2] == '9')
  }

  /** `97[89][0-9]{10}$` */
  predicate ThirteenPlain(b: string) {
    |b| == 13 && BooklandPrefix(b) && forall i :: 3 <= i < |b| ==> IsDigit(b[i])
  }

  /** `[- 0-9]*` */
  predicate DigitsOrSeparators(b: string) {
    forall i :: 0 <= i < |b| ==> IsDigit(b[i]) || IsSeparator(b[i])
  }

  /** `(?=(?:[0-9]+[- ]){4})[- 0-9]{17}$` */
  predicate SeventeenGrouped(b: string) {
    Groups(b, 4) && |b| == 17 && DigitsOrSeparators(b)
  }

  /** The look-ahead: one of the four body shapes. */
  predicate BodyShape(b: string) {
    TenShape(b) || ThirteenGrouped(b) || ThirteenPlain(b) || SeventeenGrouped(b)
  }

  /** The tail `[- ]?[0-9X]$` once `g` is 0, otherwise `g` more runs
      `[- ]?[0-9]+` before it. */
  predicate Tail(u: string, g: nat)
    decreases g, 1
  {
    if g == 0 then
      (|u| == 1 && IsCheckChar(u[0])) || (|u| == 2 && IsSeparator(u[0]) && IsCheckChar(u[1]))
    else
      Run(u, g) || (|u| > 0 && IsSeparator(u[0]) && Run(u[1..], g))
  }

  /** A run of one or more digits, then the rest of the tail. */
  predicate Run(u: string, g: nat)
    requires g > 0
    decreases g, 0
  {
    exists j :: 1 <= j <= |u| && AllDigits(u[..j]) && Tail(u[j..], g - 1)
  }

  /** `[0-9]{1,5}[- ]?[0-9]+[- ]?[0-9]+[- ]?[0-9X]$` */
  predicate Core(t: string) {
    exists k :: 1 <= k <= 5 && k <= |t| && AllDigits(t[..k]) && Tail(t[k..], 2)
  }

  /** `(?:97[89][- ])?` followed by the core. */
  predicate MainForm(b: string) {
    || (|b| >= 4 && BooklandPrefix(b) && IsSeparator(b[3]) && Core(b[4..]))
    || Core(b)
  }

  /** A body (what follows the optional prefix) that the pattern accepts. */
  predicate IsbnBody(b: string) {
    BodyShape(b) && MainForm(b)
  }

  /** The length of the prefix `(?:ISBN(?:-1[03])?:? )` at the start of
      `s`, or 0 when `s` does not start with one. Each optional part is
      decided by the next character, so at most one prefix applies. */
  function PrefixLength(s: string): (n: nat)
    ensures n <= |s|
    ensures n > 0 ==> s[..n] in Prefixes
  {
    if |s| >= 4 && s[0] == 'I' && s[1] == 'S' && s[2] == 'B' && s[3] == 'N' then
      var afterEdition := if |s| >= 7 && s[4] == '-' && s[5] == '1' && (s[6] == '0' || s[6] == '3') then 7 else 4;
      var afterColon := if |s| > afterEdition && s[afterEdition] == ':' then afterEdition + 1 else afterEdition;
      if |s| > afterColon && s[afterColon] == ' ' then
        var n := afterColon + 1;
        assert s[..n] in Prefixes by {
          if afterEdition == 4 {
            assert s[..4] == "ISBN";
            if afterColon == 5 { assert s[..n] == "ISBN: "; } else { assert s[..n] == "ISBN "; }
          } else if s[6] == '0' {
            assert s[..7] == "ISBN-10";
            if afterColon == 8 { assert s[..n] == "ISBN-10: "; } else { assert s[..n] == "ISBN-10 "; }
          } else {
            assert s[..7] == "ISBN-13";
            if afterColon == 8 { assert s[..n] == "ISBN-13: "; } else { assert s[..n] == "ISBN-13 "; }
          }
        }
        n
      else 0
    else 0
  }

  /** The whole pattern, matched against the entire string: either the
      body alone, or a prefix and then the body. */
  predicate IsbnText(s: string) {
    IsbnBody(s) || (PrefixLength(s) > 0 && IsbnBody(s[PrefixLength(s)..]))
  }

  /** The @Pattern constraint: a null ISBN is valid. */
  predicate IsbnValid(isbn: Option<string>) {
    isbn.None? || IsbnText(isbn.value)
  }

  /** Every body shape starts with a digit, a separator or X, never with
      the I of a prefix. */
  lemma BodyNotPrefixed(b: string)
    requires BodyShape(b)
    ensures |b| > 0 && b[0] != 'I'
  {
    if ThirteenPlain(b) {
      assert b[0] == '9';
    }
  }

  /** Matching the pattern is matching the body left after the prefix. */
  lemma IsbnTextStripped(s: string)
    ensures IsbnText(s) <==> IsbnBody(s[PrefixLength(s)..])
  {
    if PrefixLength(s) > 0 && IsbnBody(s) {
      BodyNotPrefixed(s);
    }
  }

  /** Every accepted body is 10, 13 or 17 characters long. */
  lemma BodyLength(b: string)
    requires BodyShape(b)
    ensures |b| == 10 || |b| == 13 || |b| == 17
  {
  }

  /** The tail: every character but the last is a digit or a separator,
      the last is a digit or X. */
  lemma {:induction false} TailChars(u: string, g: nat)
    requires Tail(u, g)
    ensures |u| > 0 && IsCheckChar(u[|u| - 1])
    ensures forall i :: 0 <= i < |u| - 1 ==> IsDigit(u[i]) || IsSeparator(u[i])
    decreases g, 1
  {
    if g > 0 {
      if Run(u, g) {
        RunChars(u, g);
      } else {
        RunChars(u[1..], g);
        assert forall i :: 1 <= i < |u| ==> u[i] == u[1..][i - 1];
      }
    }
  }

  lemma {:induction false} RunChars(u: string, g: nat)
    requires g > 0 && Run(u, g)
    ensures |u| > 0 && IsCheckChar(u[|u| - 1])
    ensures forall i :: 0 <= i < |u| - 1 ==> IsDigit(u[i]) || IsSeparator(u[i])
    decreases g, 0
  {
    var j :| 1 <= j <= |u| && AllDigits(u[..j]) && Tail(u[j..], g - 1);
    TailChars(u[j..], g - 1);
    assert forall i :: j <= i < |u| ==> u[i] == u[j..][i - j];
    assert forall i :: 0 <= i < j ==> u[i] == u[..j][i];
  }

  lemma CoreChars(t: string)
    requires Core(t)
    ensures |t| > 0 && IsCheckChar(t[|t| - 1])
    ensures forall i :: 0 <= i < |t| - 1 ==> IsDigit(t[i]) || IsSeparator(t[i])
  {
    var k :| 1 <= k <= 5 && k <= |t| && AllDigits(t[..k]) && Tail(t[k..], 2);
    TailChars(t[k..], 2);
    assert forall i :: k <= i < |t| ==> t[i] == t[k..][i - k];
    assert forall i :: 0 <= i < k ==> t[i] == t[..k][i];
  }

  /** X may appear only as the last character of an accepted body; every
      other character is a digit, a hyphen or a space. */
  lemma XOnlyLast(b: string)
    requires MainForm(b)
    ensures IsCheckChar(b[|b| - 1])
    ensures forall i :: 0 <= i < |b| - 1 ==> IsDigit(b[i]) || IsSeparator(b[i])
  {
    if Core(b) {
      CoreChars(b);
    } else {
      CoreChars(b[4..]);
      assert forall i :: 4 <= i < |b| ==> b[i] == b[4..][i - 4];
    }
  }

  predicate HasSeparator(b: string) {
    exists i :: 0 <= i < |b| && IsSeparator(b[i])
  }

  /** A run of groups contains a separator. */
  lemma GroupsHaveSeparator(b: string, n: nat)
    requires n > 0 && Groups(b, n)
    ensures HasSeparator(b)
  {
    DigitRunFacts(b);
    assert IsSeparator(b[DigitRun(b)]);
  }

  /** A thirteen-character body without separators starts with 978 or 979. */
  lemma ThirteenWithoutSeparators(b: string)
    requires BodyShape(b) && |b| == 13 && !HasSeparator(b)
    ensures BooklandPrefix(b)
  {
    if ThirteenGrouped(b) {
      GroupsHaveSeparator(b, 3);
    }
  }

  /** A thirteen-character body with a separator needs three digit groups
      each followed by a separator. */
  lemma ThirteenWithSeparators(b: string)
    requires BodyShape(b) && |b| == 13 && HasSeparator(b)
    ensures Groups(b, 3)
  {
    var i :| 0 <= i < |b| && IsSeparator(b[i]);
    assert !ThirteenPlain(b) by {
      if i >= 3 {
        assert !IsDigit(b[i]);
      }
    }
  }

  /** A seventeen-character body needs four groups and holds no X. */
  lemma SeventeenForm(b: string)
    requires BodyShape(b) && |b| == 17
    ensures Groups(b, 4)
    ensures forall i :: 0 <= i < |b| ==> b[i] != 'X'
  {
  }

  /** A group prepended to a string adds one to the groups it starts with. */
  lemma GroupsCons(d: string, sep: char, rest: string, n: nat)
    requires n > 0 && |d| >= 1 && AllDigits(d) && IsSeparator(sep) && Groups(rest, n - 1)
    ensures Groups(d + ([sep] + rest), n)
  {
    var b := d + ([sep] + rest);
    assert b[..|d|] == d;
    assert b[|d| + 1..] == rest;
    GroupsAnyRun(b, n, |d|);
  }

  /** A run of digits and a separator prepended keep DigitsOrSeparators. */
  lemma DigitsOrSeparatorsCons(d: string, sep: char, rest: string)
    requires AllDigits(d) && IsSeparator(sep) && DigitsOrSeparators(rest)
    ensures DigitsOrSeparators(d + ([sep] + rest))
  {
    var b := d + ([sep] + rest);
    assert forall i :: |d| < i < |b| ==> b[i] == rest[i - |d| - 1];
    assert forall i :: 0 <= i < |d| ==> b[i] == d[i];
  }

  /** A separator and a run of digits prepended to a tail. */
  lemma TailCons(sep: char, d: string, rest: string, g: nat)
    requires g > 0 && IsSeparator(sep) && |d| >= 1 && AllDigits(d) && Tail(rest, g - 1)
    ensures Tail([sep] + (d + rest), g)
  {
    var u := [sep] + (d + rest);
    assert u[1..] == d + rest;
    assert (d + rest)[..|d|] == d && (d + rest)[|d|..] == rest;
    assert Run(d + rest, g);
  }

  /** One to five digits followed by a two-run tail form the core. */
  lemma CoreCons(d: string, rest: string)
    requires 1 <= |d| <= 5 && AllDigits(d) && Tail(rest, 2)
    ensures Core(d + rest)
  {
    assert (d + rest)[..|d|] == d && (d + rest)[|d|..] == rest;
  }

  lemma BooklandDigits(ean: string)
    requires |ean| == 3 && BooklandPrefix(ean)
    ensures AllDigits(ean)
  {
    assert ean[0] == '9' && ean[1] == '7';
  }

  /** The separated thirteen-digit form: 978 or 979, then the
      registration group, registrant, publication and check digit, each
      preceded by one hyphen or space. */
  function Separated13(ean: string, group: string, registrant: string, publication: string, check: char,
                       s1: char, s2: char, s3: char, s4: char): string
  {
    ean + ([s1] + (group + ([s2] + (registrant + ([s3] + (publication + ([s4] + [check])))))))
  }

  /** The last three runs of the separated form as look-ahead groups. */
  lemma SeparatedGroups(group: string, registrant: string, publication: string, check: char, s2: char, s3: char, s4: char)
    requires |group| >= 1 && |registrant| >= 1 && |publication| >= 1
    requires AllDigits(group) && AllDigits(registrant) && AllDigits(publication)
    requires IsDigit(check) && IsSeparator(s2) && IsSeparator(s3) && IsSeparator(s4)
    ensures Groups(group + ([s2] + (registrant + ([s3] + (publication + ([s4] + [check]))))), 3)
  {
    GroupsCons(publication, s4, [check], 1);
    GroupsCons(registrant, s3, publication + ([s4] + [check]), 2);
    GroupsCons(group, s2, registrant + ([s3] + (publication + ([s4] + [check]))), 3);
  }

  lemma SeparatedChars(group: string, registrant: string, publication: string, check: char, s2: char, s3: char, s4: char)
    requires AllDigits(group) && AllDigits(registrant) && AllDigits(publication)
    requires IsDigit(check) && IsSeparator(s2) && IsSeparator(s3) && IsSeparator(s4)
    ensures DigitsOrSeparators(group + ([s2] + (registrant + ([s3] + (publication + ([s4] + [check]))))))
  {
    DigitsOrSeparatorsCons(publication, s4, [check]);
    DigitsOrSeparatorsCons(registrant, s3, publication + ([s4] + [check]));
    DigitsOrSeparatorsCons(group, s2, registrant + ([s3] + (publication + ([s4] + [check]))));
  }

  /** The look-ahead half for SeparatedIsbn13Accepted: four groups,
      seventeen characters, no X. */
  lemma SeparatedIsbn13Shape(ean: string, group: string, registrant: string, publication: string, check: char,
                             s1: char, s2: char, s3: char, s4: char)
    requires |ean| == 3 && BooklandPrefix(ean)
    requires 1 <= |group| && |registrant| >= 1 && |publication| >= 1
    requires AllDigits(group) && AllDigits(registrant) && AllDigits(publication) && IsDigit(check)
    requires IsSeparator(s1) && IsSeparator(s2) && IsSeparator(s3) && IsSeparator(s4)
    requires |group| + |registrant| + |publication| == 9
    ensures SeventeenGrouped(Separated13(ean, group, registrant, publication, check, s1, s2, s3, s4))
  {
    var r3 := group + ([s2] + (registrant + ([s3] + (publication + ([s4] + [check])))));
    BooklandDigits(ean);
    SeparatedGroups(group, registrant, publication, check, s2, s3, s4);
    GroupsCons(ean, s1, r3, 4);
    SeparatedChars(group, registrant, publication, check, s2, s3, s4);
    DigitsOrSeparatorsCons(ean, s1, r3);
  }

  /** The main-pattern half for SeparatedIsbn13Accepted. */
  lemma SeparatedIsbn13Main(ean: string, group: string, registrant: string, publication: string, check: char,
                            s1: char, s2: char, s3: char, s4: char)
    requires |ean| == 3 && BooklandPrefix(ean)
    requires 1 <= |group| <= 5 && |registrant| >= 1 && |publication| >= 1
    requires AllDigits(group) && AllDigits(registrant) && AllDigits(publication) && IsDigit(check)
    requires IsSeparator(s1) && IsSeparator(s2) && IsSeparator(s3) && IsSeparator(s4)
    ensures MainForm(Separated13(ean, group, registrant, publication, check, s1, s2, s3, s4))
  {
    var last := [s4] + [check];
    assert Tail(last, 0);
    TailCons(s3, publication, last, 1);
    var t2 := [s2] + (registrant + ([s3] + (publication + last)));
    TailCons(s2, registrant, [s3] + (publication + last), 2);
    var core := group + t2;
    CoreCons(group, t2);
    var b := ean + ([s1] + core);
    assert b[4..] == core;
    assert b[..3] == ean;
  }

  /** The separated thirteen-digit form of seventeen characters is
      accepted, as in "978-3-16-148410-0". */
  lemma SeparatedIsbn13Accepted(ean: string, group: string, registrant: string, publication: string, check: char,
                                s1: char, s2: char, s3: char, s4: char)
    requires |ean| == 3 && BooklandPrefix(ean)
    requires 1 <= |group| <= 5 && |registrant| >= 1 && |publication| >= 1
    requires AllDigits(group) && AllDigits(registrant) && AllDigits(publication) && IsDigit(check)
    requires IsSeparator(s1) && IsSeparator(s2) && IsSeparator(s3) && IsSeparator(s4)
    requires |group| + |registrant| + |publication| == 9
    ensures IsbnBody(Separated13(ean, group, registrant, publication, check, s1, s2, s3, s4))
  {
    SeparatedIsbn13Shape(ean, group, registrant, publication, check, s1, s2, s3, s4);
    SeparatedIsbn13Main(ean, group, registrant, publication, check, s1, s2, s3, s4);
  }

  /** A string is its part before position i, the character at i and
      the rest. */
  lemma SplitAt(t: string, i: nat)
    requires i < |t|
    ensures t == t[..i] + ([t[i]] + t[i + 1..])
  {
  }

  /** "978-3-16-148410-0" is accepted. */
  lemma AcceptsHyphenated13(s: string)
    requires s == "978-3-16-148410-0"
    ensures IsbnText(s)
  {
    var t1 := s[4..];
    var t2 := t1[2..];
    var t3 := t2[3..];
    SplitAt(s, 3);
    SplitAt(t1, 1);
    SplitAt(t2, 2);
    SplitAt(t3, 6);
    assert t3[7..] == [t3[7]];
    SeparatedIsbn13Accepted(s[..3], t1[..1], t2[..2], t3[..6], t3[7], s[3], t1[1], t2[2], t3[6]);
  }

  /** Any ten characters of which the first nine are digits and the last
      a digit or X are accepted, with no separators needed. */
  lemma TenCharacterIsbnAccepted(b: string)
    requires |b| == 10 && IsCheckChar(b[9]) && forall i :: 0 <= i < 9 ==> IsDigit(b[i])
    ensures IsbnBody(b)
  {
    assert TenShape(b);
    var last := b[9..];
    assert Tail(last, 0);
    var t1 := b[6..];
    assert t1[..3] == b[6..9] && t1[3..] == last;
    assert Run(t1, 1);
    assert Tail(t1, 1);
    var t2 := b[5..];
    assert t2[..1] == b[5..6] && t2[1..] == t1;
    assert Run(t2, 2);
    assert Tail(t2, 2);
    assert b[5..] == t2;
    assert Core(b);
  }

  /** "1234567890" is accepted. */
  lemma AcceptsPlain10(s: string)
    requires s == "1234567890"
    ensures IsbnText(s)
  {
    TenCharacterIsbnAccepted(s);
  }

  /** An X anywhere but last is rejected, e.g. "X123456789". */
  lemma RejectsLeadingX()
    ensures !IsbnText("X123456789")
  {
    var s := "X123456789";
    IsbnTextStripped(s);
    assert PrefixLength(s) == 0;
    if IsbnBody(s) {
      XOnlyLast(s);
      assert false;
    }
  }

}
