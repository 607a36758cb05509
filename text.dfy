/** The string primitives the note library leans on, written out so that
    their behaviour is explicit: lower-casing (ASCII only), `trim`,
    `includes`, the tag-stripping regular expression of the grid preview,
    and the decimal rendering of a number inside a template string. */
module Text {

  // ---------------------------------------------------------------------
  // Lower-casing
  // ---------------------------------------------------------------------

  predicate IsUpper(c: char) {
    'A' <= c <= 'Z'
  }

  /** `toLowerCase` on one character, restricted to ASCII letters. */
  function LowerChar(c: char): (d: char)
    ensures !IsUpper(d)
    ensures IsUpper(c) ==> d as int == c as int + 32
    ensures !IsUpper(c) ==> d == c
  {
    if IsUpper(c) then (c as int + 32) as char else c
  }

  function Lower(s: string): (r: string)
    ensures |r| == |s|
    ensures forall i :: 0 <= i < |s| ==> r[i] == LowerChar(s[i])
  {
    seq(|s|, i requires 0 <= i < |s| => LowerChar(s[i]))
  }

  /** Lower-casing twice is lower-casing once, so a query that is already
      lower-case is searched for exactly as typed. */
  lemma LowerIdempotent(s: string)
    ensures Lower(Lower(s)) == Lower(s)
  {
    var once := Lower(s);
    forall i | 0 <= i < |s|
      ensures Lower(once)[i] == once[i]
    {
      assert !IsUpper(once[i]);
    }
  }

  // ---------------------------------------------------------------------
  // Trimming
  // ---------------------------------------------------------------------

  /** The characters `String.prototype.trim` removes: the ECMAScript
      WhiteSpace and LineTerminator code points. */
  predicate IsWhitespace(c: char) {
    || c == ' ' || c == '\t' || c == '\n' || c == '\r'
    || c == '\U{B}' || c == '\U{C}' || c == '\U{A0}' || c == '\U{FEFF}'
    || c == '\U{1680}' || ('\U{2000}' <= c <= '\U{200A}')
    || c == '\U{2028}' || c == '\U{2029}' || c == '\U{202F}' || c == '\U{205F}'
    || c == '\U{3000}'
  }

  predicate AllWhitespace(s: string) {
    forall i :: 0 <= i < |s| ==> IsWhitespace(s[i])
  }

  /** Drops leading whitespace: the result is a suffix of `s`, everything
      dropped is whitespace, and the result does not start with any. */
  function TrimStart(s: string): (r: string)
    ensures |r| <= |s| && r == s[|s| - |r|..]
    ensures AllWhitespace(s[..|s| - |r|])
    ensures r != [] ==> !IsWhitespace(r[0])
    decreases |s|
  {
    if s != [] && IsWhitespace(s[0]) then TrimStart(s[1..]) else s
  }

  /** Drops trailing whitespace: the mirror image of TrimStart. */
  function TrimEnd(s: string): (r: string)
    ensures |r| <= |s| && r == s[..|r|]
    ensures AllWhitespace(s[|r|..])
    ensures r != [] ==> !IsWhitespace(r[|r| - 1])
    decreases |s|
  {
    if s != [] && IsWhitespace(s[|s| - 1]) then TrimEnd(s[..|s| - 1]) else s
  }

  function Trim(s: string): (r: string)
    ensures |r| <= |s|
    ensures r == [] || (!IsWhitespace(r[0]) && !IsWhitespace(r[|r| - 1]))
  {
    TrimEnd(TrimStart(s))
  }

  /** `s.trim()` is the empty (falsy) string exactly when every character of
      `s` is whitespace; this is the "blank input" test of the handlers. */
  lemma TrimEmptyIffBlank(s: string)
    ensures Trim(s) == [] <==> AllWhitespace(s)
  {
    var t := TrimStart(s);
    TrimStartOfBlank(s);
    if t != [] {
      TrimEndKeepsNonBlankStart(t);
    } else {
      assert s[..|s|] == s;
    }
  }

  lemma {:induction false} TrimStartOfBlank(s: string)
    ensures AllWhitespace(s) ==> TrimStart(s) == []
    decreases |s|
  {
    if s != [] {
      TrimStartOfBlank(s[1..]);
      assert AllWhitespace(s) ==> AllWhitespace(s[1..]);
    }
  }

  lemma {:induction false} TrimEndKeepsNonBlankStart(t: string)
    requires t != [] && !IsWhitespace(t[0])
    ensures TrimEnd(t) != []
    decreases |t|
  {
    if |t| > 1 {
      TrimEndKeepsNonBlankStart(t[..|t| - 1]);
    }
  }

  // ---------------------------------------------------------------------
  // Substring search
  // ---------------------------------------------------------------------

  /** `needle` sits in `hay` at position `i`. */
  ghost predicate OccursAt(hay: string, needle: string, i: int) {
    0 <= i && i + |needle| <= |hay| && hay[i..i + |needle|] == needle
  }

  /** `hay.includes(needle)`: some suffix of `hay` starts with `needle`. */
  function Includes(hay: string, needle: string): (r: bool)
    ensures needle <= hay ==> r
    ensures r ==> |needle| <= |hay|
    decreases |hay|
  {
    needle <= hay || (hay != [] && Includes(hay[1..], needle))
  }

  /** Includes is exactly "occurs at some position". */
  lemma {:induction false} IncludesIffOccurs(hay: string, needle: string)
    ensures Includes(hay, needle) <==> exists i :: OccursAt(hay, needle, i)
    decreases |hay|
  {
    if needle <= hay {
      assert OccursAt(hay, needle, 0);
    } else if hay != [] {
      IncludesIffOccurs(hay[1..], needle);
      if exists i :: OccursAt(hay[1..], needle, i) {
        var i :| OccursAt(hay[1..], needle, i);
        assert hay[1..][i..i + |needle|] == hay[i + 1..i + 1 + |needle|];
        assert OccursAt(hay, needle, i + 1);
      }
      assert OccursAt(hay, needle, 0) ==> needle <= hay;
      if exists i :: OccursAt(hay, needle, i) {
        var i :| OccursAt(hay, needle, i);
        assert hay[1..][i - 1..i - 1 + |needle|] == hay[i..i + |needle|];
        assert OccursAt(hay[1..], needle, i - 1);
      }
    }
  }

  /** A needle whose first character never appears in `hay` is not
      included in it. */
  lemma {:induction false} NotIncludedWithoutFirstChar(hay: string, needle: string)
    requires needle != [] && needle[0] !in hay
    ensures !Includes(hay, needle)
    decreases |hay|
  {
    if hay != [] {
      assert hay[0] != needle[0];
      assert needle[0] !in hay[1..] by {
        forall i | 0 <= i < |hay[1..]| ensures hay[1..][i] != needle[0] {
          assert hay[1..][i] == hay[i + 1];
        }
      }
      NotIncludedWithoutFirstChar(hay[1..], needle);
    }
  }

  /** Every string includes the empty string. */
  lemma IncludesEmpty(hay: string)
    ensures Includes(hay, "")
  {
  }

  // ---------------------------------------------------------------------
  // Tag stripping: `replace(/<[^>]*>?/gm, '')`
  // ---------------------------------------------------------------------

  /** What is left after a tag whose `<` has just been consumed: the
      pattern `[^>]*>?` eats everything up to and including the next `>`,
      or the whole rest of the string when there is none. */
  function AfterTag(s: string): (r: string)
    ensures |r| <= |s| && r == s[|s| - |r|..]
    decreases |s|
  {
    if s == [] then []
    else if s[0] == '>' then s[1..]
    else AfterTag(s[1..])
  }

  /** The text with every match of `<[^>]*>?` removed. Every `<` starts a
      match, so none survives, and nothing is ever added. */
  function StripTags(s: string): (r: string)
    ensures |r| <= |s|
    ensures '<' !in r
    decreases |s|
  {
    if s == [] then []
    else if s[0] == '<' then StripTags(AfterTag(s[1..]))
    else [s[0]] + StripTags(s[1..])
  }

  /** Text without a `<` has no tag to strip and comes through unchanged. */
  lemma {:induction false} StripTagsPlain(s: string)
    requires '<' !in s
    ensures StripTags(s) == s
    decreases |s|
  {
    if s != [] {
      assert s[0] != '<';
      assert '<' !in s[1..] by {
        forall i | 0 <= i < |s[1..]| ensures s[1..][i] != '<' {
          assert s[1..][i] == s[i + 1];
        }
      }
      StripTagsPlain(s[1..]);
    }
  }

  /** Text before the first `<` is kept as it is. */
  lemma {:induction false} StripTagsKeepsText(x: string, y: string)
    requires '<' !in x
    ensures StripTags(x + y) == x + StripTags(y)
    decreases |x|
  {
    if x == [] {
      assert x + y == y;
    } else {
      assert x == [x[0]] + x[1..];
      assert x[0] != '<' && '<' !in x[1..];
      var xy := x + y;
      assert xy[0] == x[0] && xy[1..] == x[1..] + y;
      StripTagsKeepsText(x[1..], y);
    }
  }

  /** A tag body without `>` is consumed through the closing `>`. */
  lemma {:induction false} AfterTagClosed(t: string, y: string)
    requires '>' !in t
    ensures AfterTag(t + ['>'] + y) == y
    decreases |t|
  {
    if t == [] {
      assert t + ['>'] + y == ['>'] + y;
    } else {
      assert t[0] != '>';
      assert (t + ['>'] + y)[1..] == t[1..] + ['>'] + y;
      assert '>' !in t[1..] by {
        forall i | 0 <= i < |t[1..]| ensures t[1..][i] != '>' {
          assert t[1..][i] == t[i + 1];
        }
      }
      AfterTagClosed(t[1..], y);
    }
  }

  /** A tag that is never closed runs to the end of the string. */
  lemma {:induction false} AfterTagUnclosed(t: string)
    requires '>' !in t
    ensures AfterTag(t) == []
    decreases |t|
  {
    if t != [] {
      assert t[0] != '>';
      assert '>' !in t[1..] by {
        forall i | 0 <= i < |t[1..]| ensures t[1..][i] != '>' {
          assert t[1..][i] == t[i + 1];
        }
      }
      AfterTagUnclosed(t[1..]);
    }
  }

  /** A closed tag `<…>` is removed and stripping goes on after it. */
  lemma StripTagsDropsTag(t: string, y: string)
    requires '>' !in t
    ensures StripTags(['<'] + t + ['>'] + y) == StripTags(y)
  {
    var s := ['<'] + t + ['>'] + y;
    assert s[1..] == t + ['>'] + y;
    AfterTagClosed(t, y);
  }

  /** An unclosed `<` removes everything after it. */
  lemma StripTagsDropsUnclosed(t: string)
    requires '>' !in t
    ensures StripTags(['<'] + t) == []
  {
    assert (['<'] + t)[1..] == t;
    AfterTagUnclosed(t);
  }

  /** Stripping is idempotent. */
  lemma StripTagsIdempotent(s: string)
    ensures StripTags(StripTags(s)) == StripTags(s)
  {
    StripTagsPlain(StripTags(s));
  }

  /** `s.substring(0, n)` for a non-negative `n`. */
  function Prefix(s: string, n: nat): (r: string)
    ensures |r| == if |s| <= n then |s| else n
    ensures r <= s
  {
    if |s| <= n then s else s[..n]
  }

  // ---------------------------------------------------------------------
  // Decimal rendering of a number inside a template string
  // ---------------------------------------------------------------------

  predicate IsDigit(c: char) {
    '0' <= c <= '9'
  }

  function DigitChar(d: nat): (c: char)
    requires d < 10
    ensures IsDigit(c)
  {
    ('0' as int + d) as char
  }

  /** The decimal numeral of `n`, as `${n}` renders it. */
  function Decimal(n: nat): (r: string)
    ensures r != []
    ensures forall i :: 0 <= i < |r| ==> IsDigit(r[i])
    ensures r[0] == '0' ==> n == 0
  {
    if n < 10 then [DigitChar(n)] else Decimal(n / 10) + [DigitChar(n % 10)]
  }

  /** The number a string of digits denotes (reading left to right). */
  function DigitsValue(s: string): nat
    requires forall i :: 0 <= i < |s| ==> IsDigit(s[i])
  {
    if s == [] then 0
    else
      assert IsDigit(s[|s| - 1]);
      DigitsValue(s[..|s| - 1]) * 10 + (s[|s| - 1] as int - '0' as int)
  }

  /** Reading back the numeral gives the number: Decimal loses nothing. */
  lemma {:induction false} DecimalRoundTrip(n: nat)
    ensures DigitsValue(Decimal(n)) == n
  {
    if n >= 10 {
      var r := Decimal(n);
      assert r[..|r| - 1] == Decimal(n / 10);
      DecimalRoundTrip(n / 10);
    }
  }
}
