/** `sanitize_filename`: turns the caption typed by the user into a file-name
    stem. Each character that file systems reject is replaced by an underscore,
    the text is stripped of surrounding whitespace and cut to 100 characters. */
module Sanitizer {

  import opened Text

  /** The characters the script refuses in a file name, in the order its loop
      visits them. */
  const InvalidChars: string := "<>:\"/\\|?*"
  const Replacement: char := '_'
  const MaxNameLength: nat := 100

  predicate IsInvalid(c: char)
  {
    c in InvalidChars
  }

  /** Python's `s.replace(c, sub)` for a one-character pattern and replacement:
      every occurrence of `c` becomes `sub`, every other character stays where
      it was. */
  function ReplaceChar(s: string, c: char, sub: char): (r: string)
    ensures |r| == |s|
    ensures forall k :: 0 <= k < |s| ==> r[k] == (if s[k] == c then sub else s[k])
    ensures c != sub ==> c !in r
  {
    if s == [] then []
    else [if s[0] == c then sub else s[0]] + ReplaceChar(s[1..], c, sub)
  }

  /** What the whole replacement pass computes, position by position: an
      invalid character becomes the underscore, any other character is kept.
      The pass leaves no invalid character, keeps the length, and changes no
      character's whitespace status. */
  function Replaced(s: string): (r: string)
    ensures |r| == |s|
    ensures forall k :: 0 <= k < |r| ==> !IsInvalid(r[k])
    ensures forall k :: 0 <= k < |r| ==> (IsSpace(r[k]) <==> IsSpace(s[k]))
  {
    assert !IsSpace(Replacement);
    assert forall c | c in InvalidChars :: !IsSpace(c);
    seq(|s|, k requires 0 <= k < |s| => if IsInvalid(s[k]) then Replacement else s[k])
  }

  /** Python's slice `s[:n]`. */
  function Truncate(s: string, n: nat): (r: string)
    ensures |r| == if |s| <= n then |s| else n
    ensures r == s[..|r|]
  {
    if |s| <= n then s else s[..n]
  }

  /** The name `sanitize_filename` returns for `text`: the replaced and
      stripped text, cut to at most 100 characters. It is never longer than
      100 characters and holds no invalid character. */
  function Sanitize(text: string): (r: string)
    ensures |r| <= MaxNameLength
    ensures forall k :: 0 <= k < |r| ==> !IsInvalid(r[k])
  {
    var r := Truncate(Strip(Replaced(text)), MaxNameLength);
    assert forall k :: 0 <= k < |r| ==> !IsInvalid(r[k]) by {
      var t := Replaced(text);
      StripSpec(t);
      forall k | 0 <= k < |r| ensures !IsInvalid(r[k]) {
        assert r[k] == t[LeadingSpaces(t) + k];
      }
    }
    r
  }

  /** The name is a prefix of the stripped, replaced text: all of it when that
      text has at most 100 characters, its first 100 characters otherwise. */
  lemma SanitizeIsPrefix(text: string)
    ensures var full := Strip(Replaced(text));
            && |Sanitize(text)| == (if |full| <= MaxNameLength then |full| else MaxNameLength)
            && Sanitize(text) == full[..|Sanitize(text)|]
  {
  }

  /** `sanitize_filename` as the script runs it: a loop that rewrites `text`
      once per invalid character, then strip and slice. */
  method SanitizeFilename(text: string) returns (safe: string)
    ensures safe == Sanitize(text)
    ensures |safe| <= MaxNameLength
    ensures forall k :: 0 <= k < |safe| ==> !IsInvalid(safe[k])
  {
    var t := text;
    for i := 0 to |InvalidChars|
      invariant |t| == |text|
      invariant forall k :: 0 <= k < |t| ==>
                  t[k] == if text[k] in InvalidChars[..i] then Replacement else text[k]
    {
      t := ReplaceChar(t, InvalidChars[i], Replacement);
    }
    assert InvalidChars[..|InvalidChars|] == InvalidChars;
    assert t == Replaced(text);
    var stripped := Strip(t);
    safe := if |stripped| <= MaxNameLength then stripped else stripped[..MaxNameLength];
  }

  /** The replacement pass works character by character, so it distributes
      over concatenation. */
  lemma ReplacedConcat(a: string, b: string)
    ensures Replaced(a + b) == Replaced(a) + Replaced(b)
  {
    var l, r := Replaced(a + b), Replaced(a) + Replaced(b);
    forall k | 0 <= k < |l| ensures l[k] == r[k] {
      if k < |a| { assert (a + b)[k] == a[k]; } else { assert (a + b)[k] == b[k - |a|]; }
    }
  }

  /** Replacing keeps a string's whitespace shape: all-whitespace strings stay
      so, and non-whitespace ends stay non-whitespace. */
  lemma ReplacedShape(s: string)
    ensures AllSpace(s) ==> AllSpace(Replaced(s))
    ensures s != [] && !IsSpace(s[0]) ==> !IsSpace(Replaced(s)[0])
    ensures s != [] && !IsSpace(s[|s| - 1]) ==> !IsSpace(Replaced(s)[|s| - 1])
  {
  }

  /** Replacing characters does not move the stripped part: stripping the
      replaced text gives the same as replacing in the stripped text. */
  lemma StripReplaced(s: string)
    ensures Strip(Replaced(s)) == Replaced(Strip(s))
  {
    var body := Strip(s);
    StripSpec(s);
    var n := LeadingSpaces(s);
    var e := n + |body|;
    var lead, trail := s[..n], s[e..];
    assert s == lead + body + trail;
    ReplacedConcat(lead + body, trail);
    ReplacedConcat(lead, body);
    ReplacedShape(lead);
    ReplacedShape(body);
    ReplacedShape(trail);
    StripUnique(Replaced(s), Replaced(lead), Replaced(body), Replaced(trail));
  }

  /** Text without invalid characters passes the replacement pass unchanged. */
  lemma ReplacedValid(s: string)
    requires forall k :: 0 <= k < |s| ==> !IsInvalid(s[k])
    ensures Replaced(s) == s
  {
  }

  /** `main` only sanitises text it has already stripped; for such text the
      strip inside `sanitize_filename` removes nothing and the name is the
      replaced text cut to 100 characters. */
  lemma SanitizeStrippedText(text: string)
    requires Strip(text) == text
    ensures Sanitize(text) == Truncate(Replaced(text), MaxNameLength)
  {
    StripReplaced(text);
  }

  /** Text that is non-empty after stripping yields a non-empty name that does
      not start with whitespace. */
  lemma SanitizeNonEmpty(text: string)
    requires Strip(text) != []
    ensures Sanitize(text) != []
    ensures !IsSpace(Sanitize(text)[0])
  {
    StripReplaced(text);
    var body := Strip(text);
    ReplacedShape(body);
    assert Strip(Replaced(text)) == Replaced(body);
    assert Sanitize(text)[0] == Replaced(body)[0];
  }

  /** A name that is already acceptable (stripped, at most 100 characters, no
      invalid character) is returned unchanged. */
  lemma SanitizeKeepsValidName(name: string)
    requires Strip(name) == name
    requires |name| <= MaxNameLength
    requires forall k :: 0 <= k < |name| ==> !IsInvalid(name[k])
    ensures Sanitize(name) == name
  {
    SanitizeStrippedText(name);
    ReplacedValid(name);
  }

  /** The cut to 100 characters comes after the strip, so a name can end in
      whitespace: 99 stripped, valid characters followed by a space and one
      more character come out as those 99 characters and the space. For the
      same reason sanitising is not idempotent: sanitising that name again
      strips the trailing space. */
  lemma SanitizeMayEndInSpace(prefix: string, last: char)
    requires |prefix| == MaxNameLength - 1 && Strip(prefix) == prefix
    requires forall k :: 0 <= k < |prefix| ==> !IsInvalid(prefix[k])
    requires !IsSpace(last) && !IsInvalid(last)
    ensures Sanitize(prefix + " " + [last]) == prefix + " "
    ensures Sanitize(prefix + " ") == prefix
  {
    var text := prefix + " " + [last];
    assert IsSpace(' ') && !IsInvalid(' ');
    assert text[0] == Strip(prefix)[0];
    StripStripped(text);
    forall k | 0 <= k < |text| ensures !IsInvalid(text[k]) {
      if k < |prefix| { assert text[k] == prefix[k]; }
    }
    ReplacedValid(text);
    SanitizeStrippedText(text);
    assert text[..MaxNameLength] == prefix + " ";
    var once := prefix + " ";
    forall k | 0 <= k < |once| ensures !IsInvalid(once[k]) {
      if k < |prefix| { assert once[k] == prefix[k]; }
    }
    ReplacedValid(once);
    StripUnique(once, [], prefix, " ");
  }
}
