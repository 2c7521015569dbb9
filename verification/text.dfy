/** The string operations the pages call on user input: `toLowerCase`, `includes`,
    `trim`, `String(n)` and `padStart`. A string is a sequence of characters. */
module Text {

  // ---------------------------------------------------------------------------
  // Case folding and substring search
  // ---------------------------------------------------------------------------

  predicate IsUpper(c: char) { 'A' <= c <= 'Z' }

  /** `toLowerCase` on one character, for the ASCII letters. */
  function LowerChar(c: char): (r: char)
    ensures !IsUpper(r)
    ensures !IsUpper(c) ==> r == c
  {
    if IsUpper(c) then (c as int - 'A' as int + 'a' as int) as char else c
  }

  /** `s.toLowerCase()`, character by character. */
  function Lower(s: string): (r: string)
    ensures |r| == |s|
    ensures forall i :: 0 <= i < |s| ==> r[i] == LowerChar(s[i])
  {
    seq(|s|, i requires 0 <= i < |s| => LowerChar(s[i]))
  }

  /** Lowering twice is lowering once, so a term already in lower case searches the same. */
  lemma LowerIdempotent(s: string)
    ensures Lower(Lower(s)) == Lower(s)
  {
  }

  /** `hay.includes(needle)`: the needle is a prefix of some suffix of the haystack. */
  predicate Includes(hay: string, needle: string)
    decreases |hay|
  {
    needle <= hay || (|hay| > 0 && Includes(hay[1..], needle))
  }

  /** The needle occupies positions i .. i+|needle| of the haystack. */
  ghost predicate OccursAt(hay: string, needle: string, i: int)
  {
    0 <= i && i + |needle| <= |hay| && hay[i..i + |needle|] == needle
  }

  /** The recursive search agrees with "there is a position where the needle occurs". */
  lemma {:induction false} IncludesIffOccurs(hay: string, needle: string)
    ensures Includes(hay, needle) <==> exists i :: OccursAt(hay, needle, i)
    decreases |hay|
  {
    if needle <= hay {
      assert OccursAt(hay, needle, 0);
    } else if |hay| > 0 {
      IncludesIffOccurs(hay[1..], needle);
      if Includes(hay[1..], needle) {
        var i :| OccursAt(hay[1..], needle, i);
        OccursShift(hay, needle, i + 1);
      } else {
        forall i | 1 <= i <= |hay| - |needle|
          ensures !OccursAt(hay, needle, i)
        {
          OccursShift(hay, needle, i);
        }
      }
    }
  }

  /** Dropping the first character moves every occurrence after position 0 one place left. */
  lemma OccursShift(hay: string, needle: string, i: int)
    requires |hay| > 0 && i >= 1
    ensures OccursAt(hay, needle, i) <==> OccursAt(hay[1..], needle, i - 1)
  {
    if i + |needle| <= |hay| {
      assert hay[1..][i - 1..i - 1 + |needle|] == hay[i..i + |needle|];
    }
  }

  /** The empty string is included in every string. */
  lemma IncludesEmpty(hay: string)
    ensures Includes(hay, "")
  {
  }

  /** The search the pages run: `field.toLowerCase().includes(term.toLowerCase())`. */
  predicate ContainsIgnoringCase(field: string, term: string)
  {
    Includes(Lower(field), Lower(term))
  }

  /** An empty search term matches every field, so an empty search box hides nothing. */
  lemma EmptyTermMatches(field: string)
    ensures ContainsIgnoringCase(field, "")
  {
    IncludesEmpty(Lower(field));
  }

  // ---------------------------------------------------------------------------
  // trim
  // ---------------------------------------------------------------------------

  /** The characters ECMAScript's `trim` removes: WhiteSpace (tab, vertical tab, form
      feed, space, no-break space, byte order mark and the Zs separators) and
      LineTerminator (LF, CR, LS, PS). Tab, LF, vertical tab, form feed and CR are the
      consecutive code points 9 to 13. */
  predicate IsJsSpace(c: char)
  {
    || ('\t' <= c <= '\r')
    || c == ' ' || c == '\U{00A0}' || c == '\U{1680}'
    || ('\U{2000}' <= c <= '\U{200A}')
    || ('\U{2028}' <= c <= '\U{2029}')
    || c == '\U{202F}' || c == '\U{205F}' || c == '\U{3000}' || c == '\U{FEFF}'
  }

  predicate AllSpace(s: string)
  {
    forall i :: 0 <= i < |s| ==> IsJsSpace(s[i])
  }

  /** Drops the leading space characters. */
  function TrimStart(s: string): (r: string)
    ensures |r| <= |s| && r == s[|s| - |r|..]
    ensures AllSpace(s[..|s| - |r|])
    ensures |r| == 0 || !IsJsSpace(r[0])
  {
    if |s| > 0 && IsJsSpace(s[0]) then TrimStart(s[1..]) else s
  }

  /** Drops the trailing space characters. */
  function TrimEnd(s: string): (r: string)
    ensures |r| <= |s| && r == s[..|r|]
    ensures AllSpace(s[|r|..])
    ensures |r| == 0 || !IsJsSpace(r[|r| - 1])
  {
    if |s| > 0 && IsJsSpace(s[|s| - 1]) then TrimEnd(s[..|s| - 1]) else s
  }

  /** `s.trim()`: the largest infix that neither starts nor ends with a space character. */
  function Trim(s: string): (r: string)
    ensures IsInfixBetweenSpaces(s, r)
    ensures NoSpaceAtEnds(r)
  {
    TrimBothEnds(s);
    TrimEnd(TrimStart(s))
  }

  /** r sits inside s with only space characters before and after it. */
  predicate IsInfixBetweenSpaces(s: string, r: string)
  {
    exists i :: (0 <= i <= |s| - |r| && r == s[i..i + |r|]
                 && AllSpace(s[..i]) && AllSpace(s[i + |r|..]))
  }

  /** r is empty or neither starts nor ends with a space character. */
  predicate NoSpaceAtEnds(r: string)
  {
    |r| == 0 || (!IsJsSpace(r[0]) && !IsJsSpace(r[|r| - 1]))
  }

  /** Dropping the leading and then the trailing spaces leaves an infix of s between
      spaces, with no space at either end. */
  lemma TrimBothEnds(s: string)
    ensures IsInfixBetweenSpaces(s, TrimEnd(TrimStart(s)))
    ensures NoSpaceAtEnds(TrimEnd(TrimStart(s)))
  {
    var t := TrimStart(s);
    InfixWitness(s, t, TrimEnd(t));
  }

  /** t is a suffix of s after spaces that does not start with one, and r a prefix of t
      before spaces that does not end with one. */
  lemma InfixWitness(s: string, t: string, r: string)
    requires |t| <= |s| && t == s[|s| - |t|..] && AllSpace(s[..|s| - |t|])
    requires |t| == 0 || !IsJsSpace(t[0])
    requires |r| <= |t| && r == t[..|r|] && AllSpace(t[|r|..])
    requires |r| == 0 || !IsJsSpace(r[|r| - 1])
    ensures IsInfixBetweenSpaces(s, r) && NoSpaceAtEnds(r)
  {
    var i := |s| - |t|;
    assert s[i..][..|r|] == s[i..i + |r|];
    assert s[i + |r|..] == t[|r|..];
    assert |r| > 0 ==> r[0] == t[0];
  }

  /** `!s.trim()` holds exactly when every character of s is a space character. */
  lemma TrimEmptyIffAllSpace(s: string)
    ensures Trim(s) == "" <==> AllSpace(s)
  {
    var t := TrimStart(s);
    TrimStartEmptyIffAllSpace(s);
    if t != "" {
      TrimEndKeepsNonSpaceHead(t);
    }
  }

  lemma {:induction false} TrimStartEmptyIffAllSpace(s: string)
    ensures TrimStart(s) == "" <==> AllSpace(s)
    decreases |s|
  {
    if |s| > 0 {
      TrimStartEmptyIffAllSpace(s[1..]);
      assert forall k :: 1 <= k < |s| ==> s[k] == s[1..][k - 1];
    }
  }

  /** Trimming the end of a string that starts with a non-space leaves that character. */
  lemma TrimEndKeepsNonSpaceHead(t: string)
    requires |t| > 0 && !IsJsSpace(t[0])
    ensures TrimEnd(t) != ""
  {
    var r := TrimEnd(t);
    if |r| < |t| {
      assert t[|r|..][0] == t[|r|];
    }
  }

  // ---------------------------------------------------------------------------
  // Decimal numbers: String(n) and padStart
  // ---------------------------------------------------------------------------

  predicate IsDigit(c: char) { '0' <= c <= '9' }

  predicate AllDigits(s: string)
  {
    forall i :: 0 <= i < |s| ==> IsDigit(s[i])
  }

  function DigitChar(d: nat): (c: char)
    requires d < 10
    ensures IsDigit(c)
  {
    ('0' as int + d) as char
  }

  /** The numeric value of a string of decimal digits, most significant first. */
  function DigitsValue(s: string): nat
    requires AllDigits(s)
  {
    if |s| == 0 then 0 else DigitsValue(s[..|s| - 1]) * 10 + (s[|s| - 1] as int - '0' as int)
  }

  /** `String(n)` for a non-negative integer: its decimal digits without leading zeros. */
  function NatToString(n: nat): (r: string)
    ensures |r| >= 1 && AllDigits(r)
    ensures |r| > 1 ==> r[0] != '0'
    ensures n < 10 <==> |r| == 1
    ensures 10 <= n < 100 <==> |r| == 2
    decreases n
  {
    if n < 10 then [DigitChar(n)] else NatToString(n / 10) + [DigitChar(n % 10)]
  }

  /** Reading back the digits of `String(n)` gives n. */
  lemma {:induction false} NatToStringValue(n: nat)
    ensures DigitsValue(NatToString(n)) == n
    decreases n
  {
    if n >= 10 {
      NatToStringValue(n / 10);
      var s := NatToString(n);
      assert s[..|s| - 1] == NatToString(n / 10);
    }
  }

  /** Distinct numbers print differently. */
  lemma NatToStringInjective(a: nat, b: nat)
    ensures NatToString(a) == NatToString(b) ==> a == b
  {
    NatToStringValue(a);
    NatToStringValue(b);
  }

  /** `String(n)` for any integer: a minus sign before the digits of a negative one. */
  function IntToString(n: int): (r: string)
    ensures n >= 0 ==> r == NatToString(n)
    ensures n < 0 ==> |r| >= 2 && r[0] == '-' && r[1..] == NatToString(-n)
  {
    if n < 0 then "-" + NatToString(-n) else NatToString(n)
  }

  /** `s.padStart(width, fill)`: fill characters in front until the string is width long. */
  function PadStart(s: string, width: nat, fill: char): (r: string)
    ensures |r| == if |s| >= width then |s| else width
    ensures r[|r| - |s|..] == s
    ensures forall i :: 0 <= i < |r| - |s| ==> r[i] == fill
  {
    if |s| >= width then s else seq(width - |s|, _ => fill) + s
  }

  /** `String(n).padStart(2, '0')` for n < 100 is two digits whose value is n. */
  lemma TwoDigitValue(n: nat)
    requires n < 100
    ensures |PadStart(NatToString(n), 2, '0')| == 2
    ensures AllDigits(PadStart(NatToString(n), 2, '0'))
    ensures DigitsValue(PadStart(NatToString(n), 2, '0')) == n
  {
    var s := NatToString(n);
    var p := PadStart(s, 2, '0');
    NatToStringValue(n);
    if n < 10 {
      assert p == ['0'] + s;
      assert p[..1] == ['0'];
    } else {
      assert p == s;
    }
  }
}
