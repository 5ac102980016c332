/** Python's `str.strip()` without arguments: removes leading and trailing whitespace. */
module Whitespace {

  /** The code points for which Python's `str.isspace()` holds, which are exactly
      the characters `str.strip()` removes when called without arguments. */
  predicate IsSpace(c: char) {
    || ('\U{9}' <= c <= '\U{D}')
    || ('\U{1C}' <= c <= '\U{20}')
    || c == '\U{85}' || c == '\U{A0}' || c == '\U{1680}'
    || ('\U{2000}' <= c <= '\U{200A}')
    || c == '\U{2028}' || c == '\U{2029}' || c == '\U{202F}' || c == '\U{205F}' || c == '\U{3000}'
  }

  /** `s` has no whitespace at either end. */
  predicate IsTrimmed(s: string) {
    s == [] || (!IsSpace(s[0]) && !IsSpace(s[|s| - 1]))
  }

  /** The slice `s[i..j]` is what stripping `s` leaves: everything before `i` and from `j`
      on is whitespace, and the slice itself starts and ends with a non-space. */
  predicate StrippedAt(s: string, i: int, j: int) {
    && 0 <= i <= j <= |s|
    && (forall k :: 0 <= k < i ==> IsSpace(s[k]))
    && (forall k :: j <= k < |s| ==> IsSpace(s[k]))
    && IsTrimmed(s[i..j])
  }

  /** Reference definition of stripping: `r` is a slice of `s` cut at whitespace-only margins. */
  ghost predicate IsStripOf(s: string, r: string) {
    exists i, j :: StrippedAt(s, i, j) && r == s[i..j]
  }

  /** The length of the run of whitespace that starts `s`. */
  function LeadingSpaces(s: string): (n: nat)
    ensures n <= |s|
  {
    if s != [] && IsSpace(s[0]) then 1 + LeadingSpaces(s[1..]) else 0
  }

  /** The length of `s` without the run of whitespace that ends it. */
  function TextEnd(s: string): (n: nat)
    ensures n <= |s|
  {
    if s != [] && IsSpace(s[|s| - 1]) then TextEnd(s[..|s| - 1]) else |s|
  }

  /** `LeadingSpaces` counts exactly the leading run of whitespace. */
  lemma {:induction false} LeadingSpacesSpec(s: string)
    ensures forall k :: 0 <= k < LeadingSpaces(s) ==> IsSpace(s[k])
    ensures LeadingSpaces(s) < |s| ==> !IsSpace(s[LeadingSpaces(s)])
  {
    if s != [] && IsSpace(s[0]) {
      LeadingSpacesSpec(s[1..]);
      forall k | 1 <= k < LeadingSpaces(s) ensures IsSpace(s[k]) {
        assert s[k] == s[1..][k - 1];
      }
      if LeadingSpaces(s) < |s| {
        assert s[LeadingSpaces(s)] == s[1..][LeadingSpaces(s[1..])];
      }
    }
  }

  /** `TextEnd` stops exactly before the trailing run of whitespace. */
  lemma {:induction false} TextEndSpec(s: string)
    ensures forall k :: TextEnd(s) <= k < |s| ==> IsSpace(s[k])
    ensures 0 < TextEnd(s) ==> !IsSpace(s[TextEnd(s) - 1])
  {
    if s != [] && IsSpace(s[|s| - 1]) {
      var init := s[..|s| - 1];
      TextEndSpec(init);
      forall k | TextEnd(s) <= k < |s| - 1 ensures IsSpace(s[k]) {
        assert s[k] == init[k];
      }
      if 0 < TextEnd(s) {
        assert s[TextEnd(s) - 1] == init[TextEnd(init) - 1];
      }
    }
  }

  /** `s.strip()`: the leading whitespace is dropped, then the trailing whitespace. */
  function Strip(s: string): string {
    var rest := s[LeadingSpaces(s)..];
    rest[..TextEnd(rest)]
  }

  /** `Strip` meets the reference definition. */
  lemma StripIsStripOf(s: string)
    ensures IsStripOf(s, Strip(s))
  {
    LeadingSpacesSpec(s);
    var i := LeadingSpaces(s);
    var rest := s[i..];
    TextEndSpec(rest);
    var j := i + TextEnd(rest);
    assert Strip(s) == rest[..TextEnd(rest)] == s[i..j];
    forall k | j <= k < |s| ensures IsSpace(s[k]) {
      assert s[k] == rest[k - i];
    }
    if i < j {
      assert s[i..j][0] == s[i];
      assert s[i..j][j - i - 1] == rest[TextEnd(rest) - 1];
    }
    assert StrippedAt(s, i, j);
  }

  /** Two ways of stripping the same string cut at the same place. */
  lemma StrippedAtUnique(s: string, i: int, j: int, i': int, j': int)
    requires StrippedAt(s, i, j) && StrippedAt(s, i', j')
    ensures s[i..j] == s[i'..j']
  {
  }

  /** The reference definition determines the result: `Strip` is the only strip of `s`. */
  lemma StripUnique(s: string, r: string)
    requires IsStripOf(s, r)
    ensures r == Strip(s)
  {
    var i, j :| StrippedAt(s, i, j) && r == s[i..j];
    StripIsStripOf(s);
    var i', j' :| StrippedAt(s, i', j') && Strip(s) == s[i'..j'];
    StrippedAtUnique(s, i, j, i', j');
  }

  /** A string with no surrounding whitespace is stored as given. */
  lemma StripKeepsTrimmed(s: string)
    requires IsTrimmed(s)
    ensures Strip(s) == s
  {
  }

  /** The result of stripping has no surrounding whitespace. */
  lemma StripIsTrimmed(s: string)
    ensures IsTrimmed(Strip(s))
  {
    StripIsStripOf(s);
    var i, j :| StrippedAt(s, i, j) && Strip(s) == s[i..j];
  }

  /** Stripping twice is stripping once. */
  lemma StripIdempotent(s: string)
    ensures Strip(Strip(s)) == Strip(s)
  {
    StripIsTrimmed(s);
    StripKeepsTrimmed(Strip(s));
  }
}
