/** EmailValidator: a whole-string match of
      ^[A-Za-z0-9+_.-]+@[A-Za-z0-9.-]+\.[A-Za-z]{2,}$
    written out as a recogniser, next to a declarative reading of the
    pattern that the recogniser is proved to decide. */
module EmailValidator {
  import opened Common

  predicate IsLetter(c: char)
  {
    ('A' <= c <= 'Z') || ('a' <= c <= 'z')
  }

  predicate IsDigit(c: char)
  {
    '0' <= c <= '9'
  }

  /** The class [A-Za-z0-9+_.-] before the '@'. */
  predicate IsLocalChar(c: char)
  {
    IsLetter(c) || IsDigit(c) || c == '+' || c == '_' || c == '.' || c == '-'
  }

  /** The class [A-Za-z0-9.-] after the '@'. */
  predicate IsDomainChar(c: char)
  {
    IsLetter(c) || IsDigit(c) || c == '.' || c == '-'
  }

  /** The pattern matches `s` with the '@' at `at` and the escaped '.' at `dot`:
      a non-empty local run, '@', a non-empty domain run, '.', and at least two
      letters that end the string. */
  predicate MatchesAt(s: string, at: int, dot: int)
  {
    0 < at && at + 1 < dot && dot + 2 < |s|
    && s[at] == '@' && s[dot] == '.'
    && (forall k :: 0 <= k < at ==> IsLocalChar(s[k]))
    && (forall k :: at < k < dot ==> IsDomainChar(s[k]))
    && (forall k :: dot < k < |s| ==> IsLetter(s[k]))
  }

  /** The language of the pattern, as the regular expression defines it. */
  ghost predicate MatchesPattern(s: string)
  {
    exists at, dot :: MatchesAt(s, at, dot)
  }

  /** Position of the first `c` in `s[from..]`, if any. */
  function IndexOf(s: string, c: char, from: nat): (r: Option<nat>)
    requires from <= |s|
    ensures r.Some? ==> from <= r.value < |s| && s[r.value] == c
    ensures r.Some? ==> forall k :: from <= k < r.value ==> s[k] != c
    ensures r.None? ==> forall k :: from <= k < |s| ==> s[k] != c
    decreases |s| - from
  {
    if from == |s| then None
    else if s[from] == c then Some(from)
    else IndexOf(s, c, from + 1)
  }

  /** Position of the last `c` in `s[..upto]`, if any. */
  function LastIndexOf(s: string, c: char, upto: nat): (r: Option<nat>)
    requires upto <= |s|
    ensures r.Some? ==> r.value < upto && s[r.value] == c
    ensures r.Some? ==> forall k :: r.value < k < upto ==> s[k] != c
    ensures r.None? ==> forall k :: 0 <= k < upto ==> s[k] != c
  {
    if upto == 0 then None
    else if s[upto - 1] == c then Some(upto - 1)
    else LastIndexOf(s, c, upto - 1)
  }

  predicate AllLocal(s: string, lo: int, hi: int)
    requires 0 <= lo <= hi <= |s|
  {
    forall k :: lo <= k < hi ==> IsLocalChar(s[k])
  }

  predicate AllDomain(s: string, lo: int, hi: int)
    requires 0 <= lo <= hi <= |s|
  {
    forall k :: lo <= k < hi ==> IsDomainChar(s[k])
  }

  predicate AllLetters(s: string, lo: int, hi: int)
    requires 0 <= lo <= hi <= |s|
  {
    forall k :: lo <= k < hi ==> IsLetter(s[k])
  }

  /** The recogniser: split at the first '@' and at the last '.', then check
      each part against its character class and length. */
  predicate Recognise(s: string)
  {
    var at := IndexOf(s, '@', 0);
    var dot := LastIndexOf(s, '.', |s|);
    at.Some? && dot.Some?
    && 0 < at.value && at.value + 1 < dot.value && dot.value + 2 < |s|
    && AllLocal(s, 0, at.value)
    && AllDomain(s, at.value + 1, dot.value)
    && AllLetters(s, dot.value + 1, |s|)
  }

  /** EmailValidator.isValid: null is rejected, anything else must match the
      pattern as a whole. */
  predicate IsValid(email: Option<string>): (b: bool)
    ensures b <==> email.Some? && MatchesPattern(email.value)
  {
    if email.Some? then
      RecogniseIffPattern(email.value);
      Recognise(email.value)
    else false
  }

  /** The recogniser decides exactly the pattern's language. */
  lemma {:induction false} RecogniseIffPattern(s: string)
    ensures Recognise(s) <==> MatchesPattern(s)
  {
    var at := IndexOf(s, '@', 0);
    var dot := LastIndexOf(s, '.', |s|);
    if Recognise(s) {
      assert MatchesAt(s, at.value, dot.value);
    }
    if MatchesPattern(s) {
      var a, d :| MatchesAt(s, a, d);
      assert !IsLocalChar('@') && !IsLetter('.');
      assert at == Some(a) by {
        if at.None? || at.value != a {
          assert s[a] == '@';
        }
      }
      assert dot == Some(d);
    }
  }

  /** An accepted address holds exactly one '@', after a non-empty local part. */
  lemma ExactlyOneAt(s: string)
    requires IsValid(Some(s))
    ensures exists at :: 0 < at < |s| && s[at] == '@'
    ensures forall i, j :: 0 <= i < |s| && 0 <= j < |s| && s[i] == '@' && s[j] == '@' ==> i == j
  {
    var at := IndexOf(s, '@', 0).value;
    var dot := LastIndexOf(s, '.', |s|).value;
    assert !IsDomainChar('@') && !IsLetter('@');
    assert forall k :: 0 <= k < |s| && k != at ==> s[k] != '@' by {
      forall k | 0 <= k < |s| && k != at
        ensures s[k] != '@'
      {
        if k < at { assert IsLocalChar(s[k]); }
        else if k < dot { assert IsDomainChar(s[k]); }
        else if k > dot { assert IsLetter(s[k]); }
      }
    }
  }

  /** An address the unit tests accept. */
  lemma AcceptsPlainAddress()
    ensures IsValid(Some("test@example.com"))
  {
    assert MatchesAt("test@example.com", 4, 12);
    RecogniseIffPattern("test@example.com");
  }

  /** An address with a '+' in its local part, also accepted. */
  lemma AcceptsPlusAddress()
    ensures IsValid(Some("test+123@e.com"))
  {
    assert MatchesAt("test+123@e.com", 8, 10);
    RecogniseIffPattern("test+123@e.com");
  }

  /** The addresses the unit tests reject: no dot, no '@', empty, null. */
  lemma RejectedVectors()
    ensures !IsValid(Some("test@example")) && !IsValid(Some("testexample.com"))
    ensures !IsValid(Some("test@examplecom")) && !IsValid(Some("")) && !IsValid(None)
  {
    assert '.' !in "test@example";
    assert '@' !in "testexample.com";
    assert '.' !in "test@examplecom";
  }
}
