/** Character-level operations on Python strings that the backup script relies
    on: the whitespace test behind `str.strip()`, `str.strip()` itself, and
    counting the occurrences of a character. */
module Text {

  /** The characters Python's `str.isspace()` accepts, and hence what
      `str.strip()` without arguments removes: the ASCII controls TAB..CR, the
      information separators FS..US, SPACE, NEL, NO-BREAK SPACE, OGHAM SPACE
      MARK, the spaces EN QUAD..HAIR SPACE, LINE and PARAGRAPH SEPARATOR,
      NARROW NO-BREAK SPACE, MEDIUM MATHEMATICAL SPACE and IDEOGRAPHIC SPACE. */
  const SpaceChars: set<char> :=
    {'\U{0009}', '\U{000A}', '\U{000B}', '\U{000C}', '\U{000D}', '\U{001C}',
      '\U{001D}', '\U{001E}', '\U{001F}', '\U{0020}', '\U{0085}', '\U{00A0}',
      '\U{1680}', '\U{2000}', '\U{2001}', '\U{2002}', '\U{2003}', '\U{2004}',
      '\U{2005}', '\U{2006}', '\U{2007}', '\U{2008}', '\U{2009}', '\U{200A}',
      '\U{2028}', '\U{2029}', '\U{202F}', '\U{205F}', '\U{3000}'}

  /** Python's `str.isspace()` for a single character. */
  predicate IsSpace(c: char)
  {
    c in SpaceChars
  }

  /** Every character of `s` is whitespace (vacuously true of ""). */
  predicate AllSpace(s: string)
  {
    forall k :: 0 <= k < |s| ==> IsSpace(s[k])
  }

  /** The number of whitespace characters at the start of `s`: the index of the
      first non-whitespace character, or |s| if there is none. */
  function LeadingSpaces(s: string): (n: nat)
    ensures n <= |s|
    ensures forall k :: 0 <= k < n ==> IsSpace(s[k])
    ensures n < |s| ==> !IsSpace(s[n])
  {
    if |s| > 0 && IsSpace(s[0]) then 1 + LeadingSpaces(s[1..]) else 0
  }

  /** The length of `s` without its trailing whitespace: one past the index of
      the last non-whitespace character, or 0 if there is none. */
  function ContentEnd(s: string): (m: nat)
    ensures m <= |s|
    ensures forall k :: m <= k < |s| ==> IsSpace(s[k])
    ensures m > 0 ==> !IsSpace(s[m - 1])
  {
    if |s| > 0 && IsSpace(s[|s| - 1]) then ContentEnd(s[..|s| - 1]) else |s|
  }

  /** Python's `str.strip()`: `s` without leading and trailing whitespace. */
  function Strip(s: string): string
  {
    var t := s[LeadingSpaces(s)..];
    t[..ContentEnd(t)]
  }

  /** What `Strip` returns: the infix of `s` that starts at its first
      non-whitespace character, with only whitespace around it, beginning and
      ending with a non-whitespace character, and empty exactly when `s` is
      all whitespace. */
  lemma StripSpec(s: string)
    ensures var r := Strip(s);
            && LeadingSpaces(s) + |r| <= |s|
            && r == s[LeadingSpaces(s)..LeadingSpaces(s) + |r|]
            && AllSpace(s[..LeadingSpaces(s)]) && AllSpace(s[LeadingSpaces(s) + |r|..])
            && (r != [] ==> !IsSpace(r[0]) && !IsSpace(r[|r| - 1]))
            && (r == [] <==> AllSpace(s))
  {
  }

  /** Reference characterisation of `Strip`: whenever `s` splits into a
      whitespace prefix, a body that is empty or has non-whitespace characters
      at both ends, and a whitespace suffix, stripping `s` yields that body. */
  lemma StripUnique(s: string, lead: string, body: string, trail: string)
    requires s == lead + body + trail
    requires AllSpace(lead) && AllSpace(trail)
    requires body != [] ==> !IsSpace(body[0]) && !IsSpace(body[|body| - 1])
    ensures Strip(s) == body
  {
    var r := Strip(s);
    StripSpec(s);
    if body == [] {
      forall k | 0 <= k < |s| ensures IsSpace(s[k]) {
        if k < |lead| { assert s[k] == lead[k]; } else { assert s[k] == trail[k - |lead|]; }
      }
    } else {
      var n := LeadingSpaces(s);
      assert s[|lead|] == body[0];
      forall k | 0 <= k < |lead| ensures IsSpace(s[k]) { assert s[k] == lead[k]; }
      assert n == |lead|;
      var e := |lead| + |body|;
      assert s[e - 1] == body[|body| - 1];
      forall k | e <= k < |s| ensures IsSpace(s[k]) { assert s[k] == trail[k - e]; }
      assert n + |r| == e;
      assert r == s[|lead|..e];
      assert s[|lead|..e] == body;
    }
  }

  /** Stripping a string that is already stripped changes nothing. */
  lemma StripStripped(s: string)
    requires s != [] ==> !IsSpace(s[0]) && !IsSpace(s[|s| - 1])
    ensures Strip(s) == s
  {
    StripUnique(s, [], s, []);
  }

  /** The number of occurrences of `c` in `s`: the measure used to state
      that a remote path holds exactly one '/'. */
  function Occurrences(s: string, c: char): (n: nat)
    ensures n <= |s|
    ensures n == 0 <==> c !in s
  {
    if s == [] then 0
    else (if s[0] == c then 1 else 0) + Occurrences(s[1..], c)
  }

  /** Counting occurrences distributes over concatenation. */
  lemma {:induction false} OccurrencesConcat(a: string, b: string, c: char)
    ensures Occurrences(a + b, c) == Occurrences(a, c) + Occurrences(b, c)
  {
    if a == [] {
      assert a + b == b;
    } else {
      assert (a + b)[1..] == a[1..] + b;
      OccurrencesConcat(a[1..], b, c);
    }
  }
}
