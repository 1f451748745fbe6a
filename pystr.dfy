/**
 * The three Python string operations the translator relies on, restricted
 * to ASCII: `str.strip()` with no argument, `str.lower()` and `str.isdigit()`.
 */
module PyStr {

  /** The ASCII characters for which Python's `str.isspace()` holds:
      space, \t \n \v \f \r (9..13) and the separators \x1c..\x1f. */
  predicate IsSpace(c: char) {
    c == ' ' || ('\t' <= c <= '\r') || ('\U{1C}' <= c <= '\U{1F}')
  }

  /** `s.lstrip()`. */
  function TrimStart(s: string): (r: string)
    ensures |r| <= |s|
  {
    if |s| > 0 && IsSpace(s[0]) then TrimStart(s[1..]) else s
  }

  /** `s.rstrip()`. */
  function TrimEnd(s: string): (r: string)
    ensures |r| <= |s|
  {
    if |s| > 0 && IsSpace(s[|s| - 1]) then TrimEnd(s[..|s| - 1]) else s
  }

  /** `s.strip()`. */
  function Trim(s: string): string {
    TrimEnd(TrimStart(s))
  }

  /** `s.lstrip()` is a suffix of `s`, drops only whitespace, and what is
      left does not start with whitespace. */
  lemma {:induction false} TrimStartSpec(s: string)
    ensures |TrimStart(s)| <= |s| && TrimStart(s) == s[|s| - |TrimStart(s)|..]
    ensures forall k :: 0 <= k < |s| - |TrimStart(s)| ==> IsSpace(s[k])
    ensures TrimStart(s) == [] || !IsSpace(TrimStart(s)[0])
  {
    if |s| > 0 && IsSpace(s[0]) {
      TrimStartSpec(s[1..]);
      forall k | 0 < k < |s| - |TrimStart(s)| ensures IsSpace(s[k]) {
        assert s[k] == s[1..][k - 1];
      }
    }
  }

  /** `s.rstrip()` is a prefix of `s`, drops only whitespace, and what is
      left does not end with whitespace. */
  lemma {:induction false} TrimEndSpec(s: string)
    ensures |TrimEnd(s)| <= |s| && TrimEnd(s) == s[..|TrimEnd(s)|]
    ensures forall k :: |TrimEnd(s)| <= k < |s| ==> IsSpace(s[k])
    ensures TrimEnd(s) == [] || !IsSpace(TrimEnd(s)[|TrimEnd(s)| - 1])
  {
    if |s| > 0 && IsSpace(s[|s| - 1]) {
      var init := s[..|s| - 1];
      TrimEndSpec(init);
      forall k | |TrimEnd(s)| <= k < |s| - 1 ensures IsSpace(s[k]) {
        assert s[k] == init[k];
      }
    }
  }

  /** What `s.strip()` leaves, if anything, neither starts nor ends with
      whitespace, and it is no longer than `s`. */
  lemma TrimHasNoOuterSpace(s: string)
    ensures |Trim(s)| <= |s|
    ensures Trim(s) == [] || (!IsSpace(Trim(s)[0]) && !IsSpace(Trim(s)[|Trim(s)| - 1]))
  {
    var t := TrimStart(s);
    TrimStartSpec(s);
    TrimEndSpec(t);
    assert Trim(s) != [] ==> Trim(s)[0] == t[0];
  }

  /** `s.strip()` keeps an infix of `s` and drops only whitespace: the
      first `|s| - |s.lstrip()|` characters and everything after the infix. */
  lemma TrimIsInfix(s: string)
    ensures var i := |s| - |TrimStart(s)|;
            i + |Trim(s)| <= |s| && Trim(s) == s[i..i + |Trim(s)|]
            && (forall k :: 0 <= k < i ==> IsSpace(s[k]))
            && (forall k :: i + |Trim(s)| <= k < |s| ==> IsSpace(s[k]))
  {
    var t := TrimStart(s);
    TrimStartSpec(s);
    TrimEndSpec(t);
    var i := |s| - |t|;
    var r := Trim(s);
    forall k | i + |r| <= k < |s| ensures IsSpace(s[k]) {
      assert s[k] == t[k - i];
    }
  }

  /** A string with no whitespace at either end is its own strip. */
  lemma TrimOfTrimmed(s: string)
    requires s == [] || (!IsSpace(s[0]) && !IsSpace(s[|s| - 1]))
    ensures Trim(s) == s
  {
  }

  /** `strip` is idempotent. */
  lemma TrimIdempotent(s: string)
    ensures Trim(Trim(s)) == Trim(s)
  {
    TrimHasNoOuterSpace(s);
    TrimOfTrimmed(Trim(s));
  }

  /** `c.lower()` for one character: only ASCII 'A'..'Z' change. */
  function LowerChar(c: char): (r: char)
    ensures 'A' <= c <= 'Z' ==> r as int == c as int + 32
    ensures !('A' <= c <= 'Z') ==> r == c
    ensures IsSpace(r) <==> IsSpace(c)
    ensures !('A' <= r <= 'Z')
  {
    if 'A' <= c <= 'Z' then (c as int + 32) as char else c
  }

  /** `s.lower()` on ASCII text: same length, each character lowered. */
  function Lower(s: string): (r: string)
    ensures |r| == |s|
  {
    if s == [] then [] else [LowerChar(s[0])] + Lower(s[1..])
  }

  /** Each character of `s.lower()` is the lowered character of `s`. */
  lemma {:induction false} LowerAt(s: string, i: nat)
    requires i < |s|
    ensures Lower(s)[i] == LowerChar(s[i])
  {
    if i > 0 {
      LowerAt(s[1..], i - 1);
    }
  }

  /** Two characters that are the same letter up to ASCII case, or equal. */
  predicate SameIgnoringCase(x: char, y: char) {
    x == y
    || ('A' <= x <= 'Z' && y as int == x as int + 32)
    || ('A' <= y <= 'Z' && x as int == y as int + 32)
  }

  /** Lower-casing identifies exactly the characters that differ only in
      ASCII case. */
  lemma LowerCharEqualIff(x: char, y: char)
    ensures LowerChar(x) == LowerChar(y) <==> SameIgnoringCase(x, y)
  {
  }

  /** Two strings lower to the same string exactly when they agree
      character by character up to ASCII case. */
  lemma LowerEqualIff(a: string, b: string)
    ensures Lower(a) == Lower(b) <==>
              |a| == |b| && forall i :: 0 <= i < |a| ==> SameIgnoringCase(a[i], b[i])
  {
    if |a| == |b| {
      if Lower(a) == Lower(b) {
        forall i | 0 <= i < |a| ensures SameIgnoringCase(a[i], b[i]) {
          LowerAt(a, i);
          LowerAt(b, i);
          LowerCharEqualIff(a[i], b[i]);
        }
      }
      if forall i :: 0 <= i < |a| ==> SameIgnoringCase(a[i], b[i]) {
        forall i | 0 <= i < |a| ensures Lower(a)[i] == Lower(b)[i] {
          LowerAt(a, i);
          LowerAt(b, i);
          LowerCharEqualIff(a[i], b[i]);
        }
      }
    }
  }

  /** The normal form the translator uses for column names: `s.strip().lower()`. */
  function Norm(s: string): string {
    Lower(Trim(s))
  }

  /** Lower-casing never introduces or removes whitespace at either end,
      so a normal form never starts or ends with whitespace. */
  lemma NormHasNoOuterSpace(s: string)
    ensures Norm(s) == [] || (!IsSpace(Norm(s)[0]) && !IsSpace(Norm(s)[|Norm(s)| - 1]))
  {
    var t := Trim(s);
    TrimHasNoOuterSpace(s);
    if t != [] {
      LowerAt(t, 0);
      LowerAt(t, |t| - 1);
    }
  }

  /** Two names have the same normal form exactly when, once stripped,
      they agree character by character up to ASCII case: " Species "
      and "species" match, "species" and "specie" do not. */
  lemma NormEqualIff(a: string, b: string)
    ensures Norm(a) == Norm(b) <==>
              |Trim(a)| == |Trim(b)|
              && forall i :: 0 <= i < |Trim(a)| ==> SameIgnoringCase(Trim(a)[i], Trim(b)[i])
  {
    LowerEqualIff(Trim(a), Trim(b));
  }

  /** Normalising is idempotent, so already-stripped names keep their normal form. */
  lemma {:induction false} NormIdempotent(s: string)
    ensures Norm(Norm(s)) == Norm(s)
  {
    var n := Norm(s);
    NormHasNoOuterSpace(s);
    TrimOfTrimmed(n);
    forall i | 0 <= i < |n| ensures Lower(n)[i] == n[i] {
      LowerAt(n, i);
      LowerAt(Trim(s), i);
    }
    assert Lower(n) == n;
  }

  /** A name made of lower-case letters, digits, underscores and the like
      (no whitespace, no upper case) is its own normal form. */
  lemma PlainIsNormal(s: string)
    requires forall i :: 0 <= i < |s| ==> !IsSpace(s[i]) && !('A' <= s[i] <= 'Z')
    ensures Norm(s) == s
  {
    TrimOfTrimmed(s);
    forall i | 0 <= i < |s| ensures Lower(s)[i] == s[i] {
      LowerAt(s, i);
    }
  }

  /** Two different plain names have different normal forms. */
  lemma PlainNamesDiffer(a: string, b: string)
    requires forall i :: 0 <= i < |a| ==> !IsSpace(a[i]) && !('A' <= a[i] <= 'Z')
    requires forall i :: 0 <= i < |b| ==> !IsSpace(b[i]) && !('A' <= b[i] <= 'Z')
    requires a != b
    ensures Norm(a) != Norm(b)
  {
    PlainIsNormal(a);
    PlainIsNormal(b);
  }

  /** ASCII reading of `s.isdigit()`: non-empty and only '0'..'9'. */
  predicate IsDigits(s: string) {
    |s| > 0 && forall i :: 0 <= i < |s| ==> '0' <= s[i] <= '9'
  }

  /** A digit string has no whitespace and no upper case, so it is its own
      strip and its own normal form; the empty string is not a digit string. */
  lemma DigitsAreNormal(s: string)
    ensures IsDigits(s) ==> Trim(s) == s && Norm(s) == s
    ensures !IsDigits([])
  {
    if IsDigits(s) {
      PlainIsNormal(s);
    }
  }
}
