/** java.lang.String.trim and the blank tests built on it. */
module Text {
  import opened Common

  /** `trim` removes every leading and trailing character whose code is at
      most U+0020 (spaces, tabs, line breaks and the other control codes). */
  predicate IsTrimmable(c: char)
  {
    c <= ' '
  }

  /** Some character survives trimming. */
  predicate HasVisibleChar(s: string)
  {
    exists i :: 0 <= i < |s| && !IsTrimmable(s[i])
  }

  /** Index of the first character `trim` keeps (|s| when there is none). */
  function TrimLow(s: string, st: nat): (lo: nat)
    requires st <= |s|
    ensures st <= lo <= |s|
    ensures forall k :: st <= k < lo ==> IsTrimmable(s[k])
    ensures lo < |s| ==> !IsTrimmable(s[lo])
    decreases |s| - st
  {
    if st < |s| && IsTrimmable(s[st]) then TrimLow(s, st + 1) else st
  }

  /** End (exclusive) of the part `trim` keeps, scanning back towards `lo`. */
  function TrimHigh(s: string, lo: nat, len: nat): (hi: nat)
    requires lo <= len <= |s|
    ensures lo <= hi <= len
    ensures forall k :: hi <= k < len ==> IsTrimmable(s[k])
    ensures hi > lo ==> !IsTrimmable(s[hi - 1])
    decreases len
  {
    if lo < len && IsTrimmable(s[len - 1]) then TrimHigh(s, lo, len - 1) else len
  }

  /** String.trim: the infix left after dropping trimmable characters from
      both ends. */
  function Trim(s: string): (r: string)
    ensures |r| <= |s|
    ensures r != [] ==> !IsTrimmable(r[0]) && !IsTrimmable(r[|r| - 1])
    ensures exists lo, hi ::
      (0 <= lo <= hi <= |s| && r == s[lo..hi]
       && (forall k :: 0 <= k < lo || hi <= k < |s| ==> IsTrimmable(s[k])))
  {
    var lo := TrimLow(s, 0);
    var hi := TrimHigh(s, lo, |s|);
    s[lo..hi]
  }

  /** A string trims to nothing exactly when every character is trimmable. */
  lemma TrimEmptyIff(s: string)
    ensures Trim(s) != [] <==> HasVisibleChar(s)
  {
    var lo := TrimLow(s, 0);
    if Trim(s) != [] {
      assert !IsTrimmable(s[lo]);
    }
  }

  /** Bean Validation's @NotBlank: not null, and non-empty once trimmed. */
  predicate NotBlank(v: Option<string>): (b: bool)
    ensures b <==> v.Some? && HasVisibleChar(v.value)
  {
    if v.None? then false
    else
      TrimEmptyIff(v.value);
      Trim(v.value) != []
  }
}
