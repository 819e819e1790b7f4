/** The C string primitives the directory relies on: strcmp, strcasecmp,
    strncmp against a prefix, tolower and the upper-case scan.  Strings are
    sequences of characters without the terminating NUL; characters compare
    by code point, which is the order strcmp gives on their UTF-8 bytes. */
module CStrings {

  /** Three-way comparison with the sign convention of strcmp: the first
      differing character decides, and a proper prefix sorts first. */
  function Cmp(a: string, b: string): (r: int)
    ensures -1 <= r <= 1
    decreases |a|
  {
    if |a| == 0 && |b| == 0 then 0
    else if |a| == 0 then -1
    else if |b| == 0 then 1
    else if a[0] < b[0] then -1
    else if b[0] < a[0] then 1
    else Cmp(a[1..], b[1..])
  }

  /** `strcmp(a, b) < 0`. */
  predicate Less(a: string, b: string) {
    Cmp(a, b) < 0
  }

  lemma {:induction false} CmpZeroIffEqual(a: string, b: string)
    ensures Cmp(a, b) == 0 <==> a == b
    decreases |a|
  {
    if |a| > 0 && |b| > 0 && a[0] == b[0] {
      CmpZeroIffEqual(a[1..], b[1..]);
      assert a == [a[0]] + a[1..];
      assert b == [b[0]] + b[1..];
    }
  }

  lemma {:induction false} CmpAntisymmetric(a: string, b: string)
    ensures Cmp(a, b) == -Cmp(b, a)
    decreases |a|
  {
    if |a| > 0 && |b| > 0 && a[0] == b[0] {
      CmpAntisymmetric(a[1..], b[1..]);
    }
  }

  lemma {:induction false} LessTransitive(a: string, b: string, c: string)
    requires Less(a, b) && Less(b, c)
    ensures Less(a, c)
    decreases |a|
  {
    if |a| > 0 && a[0] == b[0] && b[0] == c[0] {
      LessTransitive(a[1..], b[1..], c[1..]);
    }
  }

  lemma LessIrreflexive(a: string)
    ensures !Less(a, a)
  {
    CmpZeroIffEqual(a, a);
  }

  /** Exactly one of `Less(a, b)`, `a == b`, `Less(b, a)` holds. */
  lemma LessTrichotomy(a: string, b: string)
    ensures Less(a, b) || a == b || Less(b, a)
    ensures Less(a, b) ==> !Less(b, a) && a != b
  {
    CmpZeroIffEqual(a, b);
    CmpAntisymmetric(a, b);
  }

  /** `strcmp(a, b) > 0` is the same as `b` sorting before `a`. */
  lemma CmpPositiveIsLess(a: string, b: string)
    ensures Cmp(a, b) > 0 <==> Less(b, a)
  {
    CmpAntisymmetric(a, b);
  }

  /** The order strcmp reports, stated without recursion: `a` is a proper
      prefix of `b`, or `a` has the smaller character at the first position
      where the two differ. */
  ghost predicate LexLess(a: string, b: string) {
    || (|a| < |b| && a == b[..|a|])
    || exists k :: 0 <= k < |a| && k < |b| && a[..k] == b[..k] && a[k] < b[k]
  }

  /** strcmp's sign is the lexicographic order of the two strings. */
  lemma {:induction false} CmpIsLexicographic(a: string, b: string)
    ensures Cmp(a, b) < 0 <==> LexLess(a, b)
    decreases |a|
  {
    if |a| == 0 || |b| == 0 || a[0] < b[0] {
      assert a[..0] == b[..0];
    } else if b[0] < a[0] {
      LexLessFirstGreater(a, b);
    } else {
      CmpIsLexicographic(a[1..], b[1..]);
      if LexLess(a[1..], b[1..]) {
        LexLessTailUp(a, b);
      }
      if LexLess(a, b) {
        LexLessTailDown(a, b);
      }
    }
  }

  lemma LexLessFirstGreater(a: string, b: string)
    requires |a| > 0 && |b| > 0 && b[0] < a[0]
    ensures !LexLess(a, b)
  {
    if |a| < |b| {
      assert b[..|a|][0] == b[0];
    }
    forall k | 0 < k < |a| && k < |b| ensures a[..k] != b[..k] {
      assert a[..k][0] == a[0] && b[..k][0] == b[0];
    }
  }

  lemma LexLessTailUp(a: string, b: string)
    requires |a| > 0 && |b| > 0 && a[0] == b[0]
    requires LexLess(a[1..], b[1..])
    ensures LexLess(a, b)
  {
    var a', b' := a[1..], b[1..];
    if |a'| < |b'| && a' == b'[..|a'|] {
      assert a == [a[0]] + a' && b[..|a|] == [b[0]] + b'[..|a'|];
    } else {
      var k :| 0 <= k < |a'| && k < |b'| && a'[..k] == b'[..k] && a'[k] < b'[k];
      assert a[..k + 1] == [a[0]] + a'[..k];
      assert b[..k + 1] == [b[0]] + b'[..k];
      assert a[k + 1] < b[k + 1];
    }
  }

  lemma LexLessTailDown(a: string, b: string)
    requires |a| > 0 && |b| > 0 && a[0] == b[0]
    requires LexLess(a, b)
    ensures LexLess(a[1..], b[1..])
  {
    var a', b' := a[1..], b[1..];
    if |a| < |b| && a == b[..|a|] {
      assert a' == b'[..|a'|];
    } else {
      var k :| 0 <= k < |a| && k < |b| && a[..k] == b[..k] && a[k] < b[k];
      assert k > 0;
      assert a'[..k - 1] == a[..k][1..];
      assert b'[..k - 1] == b[..k][1..];
      assert a'[k - 1] < b'[k - 1];
    }
  }

  predicate IsUpper(c: char) {
    'A' <= c <= 'Z'
  }

  /** tolower in the C locale: only ASCII capitals change. */
  function Lower(c: char): (r: char)
    ensures !IsUpper(r)
    ensures IsUpper(c) ==> r as int == c as int + 32
    ensures !IsUpper(c) ==> r == c
  {
    if IsUpper(c) then (c as int + 32) as char else c
  }

  /** The alias normalisation loop of addAddress: every character through tolower. */
  function ToLower(s: string): (r: string)
    ensures |r| == |s|
    ensures forall i :: 0 <= i < |s| ==> r[i] == Lower(s[i])
    decreases |s|
  {
    if |s| == 0 then [] else [Lower(s[0])] + ToLower(s[1..])
  }

  /** `strcasecmp(a, b) == 0`: the strings agree character by character after folding. */
  predicate EqualsIgnoreCase(a: string, b: string)
    decreases |a|
  {
    if |a| == 0 || |b| == 0 then |a| == |b|
    else Lower(a[0]) == Lower(b[0]) && EqualsIgnoreCase(a[1..], b[1..])
  }

  /** strcasecmp equality is equality of the lower-cased strings. */
  lemma {:induction false} EqualsIgnoreCaseIff(a: string, b: string)
    ensures EqualsIgnoreCase(a, b) <==> ToLower(a) == ToLower(b)
    decreases |a|
  {
    if |a| > 0 && |b| > 0 {
      EqualsIgnoreCaseIff(a[1..], b[1..]);
      assert ToLower(a) == [Lower(a[0])] + ToLower(a[1..]);
      assert ToLower(b) == [Lower(b[0])] + ToLower(b[1..]);
      if ToLower(a) == ToLower(b) {
        assert ToLower(a)[0] == ToLower(b)[0];
        assert ToLower(a)[1..] == ToLower(b)[1..];
      }
    }
  }

  /** A lower-cased alias still matches the original under strcasecmp. */
  lemma LowerMatchesOriginal(s: string)
    ensures EqualsIgnoreCase(ToLower(s), s)
  {
    var t := ToLower(s);
    assert ToLower(t) == ToLower(s);
    EqualsIgnoreCaseIff(t, s);
  }

  /** `strncmp(s, p, strlen(p)) == 0`. */
  predicate MatchesPrefix(s: string, p: string)
    decreases |p|
  {
    |p| == 0 || (|s| > 0 && s[0] == p[0] && MatchesPrefix(s[1..], p[1..]))
  }

  lemma {:induction false} MatchesPrefixIff(s: string, p: string)
    ensures MatchesPrefix(s, p) <==> p <= s
    decreases |p|
  {
    if |p| > 0 && |s| > 0 {
      MatchesPrefixIff(s[1..], p[1..]);
      if p <= s {
        assert p[1..] <= s[1..];
      }
      if s[0] == p[0] && p[1..] <= s[1..] {
        assert p == [p[0]] + p[1..];
        assert s == [s[0]] + s[1..];
      }
    }
  }

  /** containsUppercase: is some character of the alias an ASCII capital? */
  function ContainsUppercase(s: string): (r: bool)
    ensures r <==> exists i :: 0 <= i < |s| && IsUpper(s[i])
    decreases |s|
  {
    if |s| == 0 then false
    else if IsUpper(s[0]) then true
    else
      var rest := ContainsUppercase(s[1..]);
      assert rest ==> exists i :: 0 < i < |s| && IsUpper(s[i]) by {
        if rest {
          var j :| 0 <= j < |s| - 1 && IsUpper(s[1..][j]);
          assert IsUpper(s[j + 1]);
        }
      }
      rest
  }

  /** The number of bytes a character takes in UTF-8. */
  function Utf8Width(c: char): nat {
    if c as int < 0x80 then 1
    else if c as int < 0x800 then 2
    else if c as int < 0x1_0000 then 3
    else 4
  }

  /** strlen: the length in bytes of the UTF-8 text, the NUL not counted. */
  function ByteLength(s: string): (n: nat)
    ensures |s| <= n <= 4 * |s|
    decreases |s|
  {
    if |s| == 0 then 0 else Utf8Width(s[0]) + ByteLength(s[1..])
  }

  /** Text made of ASCII characters has one byte per character. */
  lemma {:induction false} ByteLengthOfAscii(s: string)
    requires forall i :: 0 <= i < |s| ==> s[i] as int < 0x80
    ensures ByteLength(s) == |s|
    decreases |s|
  {
    if |s| > 0 {
      ByteLengthOfAscii(s[1..]);
    }
  }

  /** tolower changes only ASCII capitals, so the byte length is kept. */
  lemma {:induction false} ByteLengthOfLower(s: string)
    ensures ByteLength(ToLower(s)) == ByteLength(s)
    decreases |s|
  {
    if |s| > 0 {
      ByteLengthOfLower(s[1..]);
      assert ToLower(s)[1..] == ToLower(s[1..]);
    }
  }
}
