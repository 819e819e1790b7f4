/** The record validators: validateIP, validateAlias and isValidIPv4Prefix.

    validateIP runs `sscanf(ip, "%d.%d.%d.%d%c", ...)` and accepts when exactly
    four conversions succeed, each value lies in [0, 255] and the text holds
    exactly three dots.  A `%d` conversion is modelled as an unsigned run of
    decimal digits (leading zeros allowed, no sign, no leading white space). */
module Validation {
  import opened Wrappers
  import opened CStrings

  /** MAX_ALIAS_LENGTH. */
  const MaxAliasLength: nat := 10

  /** Size of the scratch buffer of isValidIPv4Prefix; snprintf keeps one byte for the NUL. */
  const PrefixBufferSize: nat := 16

  predicate IsDigit(c: char) {
    '0' <= c <= '9'
  }

  predicate AllDigits(s: string) {
    forall i :: 0 <= i < |s| ==> IsDigit(s[i])
  }

  /** Length of the digit run at the front of `s`. */
  function DigitRun(s: string): (n: nat)
    ensures n <= |s|
    decreases |s|
  {
    if |s| == 0 || !IsDigit(s[0]) then 0 else 1 + DigitRun(s[1..])
  }

  /** The run is all digits and stops at the first non-digit. */
  lemma {:induction false} DigitRunMaximal(s: string)
    ensures AllDigits(s[..DigitRun(s)])
    ensures DigitRun(s) < |s| ==> !IsDigit(s[DigitRun(s)])
    decreases |s|
  {
    if |s| > 0 && IsDigit(s[0]) {
      var m := DigitRun(s[1..]);
      DigitRunMaximal(s[1..]);
      assert s[..m + 1] == [s[0]] + s[1..][..m];
    }
  }

  /** The value a digit text denotes in base ten (what `%d` stores for it). */
  function DecimalValue(d: string): (v: int)
    ensures AllDigits(d) ==> v >= 0
    decreases |d|
  {
    if |d| == 0 then 0
    else 10 * DecimalValue(d[..|d| - 1]) + (d[|d| - 1] as int - '0' as int)
  }

  /** One `%d` conversion: the digit text it consumes and the unread rest, or
      None when the input does not start with a digit. */
  function ScanDecimal(s: string): (r: Option<(string, string)>)
    ensures r.None? <==> |s| == 0 || !IsDigit(s[0])
  {
    var n := DigitRun(s);
    if n == 0 then None else Some((s[..n], s[n..]))
  }

  /** A conversion reads a non-empty digit text, the longest there is, and
      leaves the rest unread. */
  lemma ScanDecimalReads(s: string)
    requires ScanDecimal(s).Some?
    ensures |ScanDecimal(s).value.0| > 0 && AllDigits(ScanDecimal(s).value.0)
    ensures s == ScanDecimal(s).value.0 + ScanDecimal(s).value.1
    ensures |ScanDecimal(s).value.1| > 0 ==> !IsDigit(ScanDecimal(s).value.1[0])
  {
    DigitRunMaximal(s);
    var n := DigitRun(s);
    assert s == s[..n] + s[n..];
  }

  /** The dotted texts joined back together: `d0.d1. ... .dk`. */
  function JoinDots(ds: seq<string>): string
    requires |ds| >= 1
    decreases |ds|
  {
    if |ds| == 1 then ds[0] else ds[0] + "." + JoinDots(ds[1..])
  }

  /** The format `%d.%d. ... .%d` with `n` conversions: the digit texts read
      and the unread rest, or None as soon as a conversion or a literal dot fails. */
  function ScanFields(s: string, n: nat): (r: Option<(seq<string>, string)>)
    requires n >= 1
    ensures r.Some? ==> |r.value.0| == n
    decreases n
  {
    var head := ScanDecimal(s);
    if head.None? then None
    else
      var d, rest := head.value.0, head.value.1;
      if n == 1 then Some(([d], rest))
      else if |rest| == 0 || rest[0] != '.' then None
      else
        var tail := ScanFields(rest[1..], n - 1);
        if tail.None? then None
        else
          var ds, rest' := tail.value.0, tail.value.1;
          Some(([d] + ds, rest'))
  }

  /** What the scanner read, put back together, is the scanned text. */
  lemma {:induction false} ScanFieldsRejoins(s: string, n: nat)
    requires n >= 1 && ScanFields(s, n).Some?
    ensures s == JoinDots(ScanFields(s, n).value.0) + ScanFields(s, n).value.1
    decreases n
  {
    ScanDecimalReads(s);
    var d, rest := ScanDecimal(s).value.0, ScanDecimal(s).value.1;
    if n == 1 {
      assert ScanFields(s, n).value.0 == [d];
      assert ScanFields(s, n).value.1 == rest;
    } else {
      var tail := ScanFields(rest[1..], n - 1);
      ScanFieldsRejoins(rest[1..], n - 1);
      var ds, rest' := tail.value.0, tail.value.1;
      assert rest == "." + rest[1..];
      RejoinCons(d, rest, ds, rest');
    }
  }

  lemma RejoinCons(d: string, rest: string, ds: seq<string>, rest': string)
    requires |ds| >= 1 && rest == "." + (JoinDots(ds) + rest')
    ensures d + rest == JoinDots([d] + ds) + rest'
  {
    var j := JoinDots(ds);
    JoinDotsCons(d, ds);
    Regroup(d, ".", j, rest');
  }

  /** Concatenation regrouped, kept apart so that no other term is in scope. */
  lemma Regroup(a: string, b: string, c: string, e: string)
    ensures a + (b + (c + e)) == a + b + c + e
  {
  }

  /** Every text the scanner returns is a non-empty digit run. */
  lemma {:induction false} ScanFieldsReadsDigits(s: string, n: nat)
    requires n >= 1 && ScanFields(s, n).Some?
    ensures AllFields(ScanFields(s, n).value.0)
    decreases n
  {
    ScanDecimalReads(s);
    var d, rest := ScanDecimal(s).value.0, ScanDecimal(s).value.1;
    if n > 1 {
      ScanFieldsReadsDigits(rest[1..], n - 1);
      var ds := ScanFields(rest[1..], n - 1).value.0;
      assert ScanFields(s, n).value.0 == [d] + ds;
      forall i | 0 <= i < |ds| + 1
        ensures |([d] + ds)[i]| > 0 && AllDigits(([d] + ds)[i])
      {
        if i > 0 {
          assert ([d] + ds)[i] == ds[i - 1];
        }
      }
    }
  }

  /** Every text is a non-empty digit run. */
  predicate AllFields(ds: seq<string>) {
    forall i :: 0 <= i < |ds| ==> |ds[i]| > 0 && AllDigits(ds[i])
  }

  lemma JoinDotsCons(d: string, ds: seq<string>)
    requires |ds| >= 1
    ensures JoinDots([d] + ds) == d + "." + JoinDots(ds)
  {
    assert ([d] + ds)[1..] == ds;
  }

  /** Four parts joined, spelled out. */
  lemma JoinDotsFour(ds: seq<string>)
    requires |ds| == 4
    ensures JoinDots(ds) == ds[0] + "." + ds[1] + "." + ds[2] + "." + ds[3]
  {
    assert ds[1..][1..][1..] == [ds[3]];
    calc {
      JoinDots(ds);
      ds[0] + "." + JoinDots(ds[1..]);
      ds[0] + "." + (ds[1] + "." + JoinDots(ds[1..][1..]));
      ds[0] + "." + (ds[1] + "." + (ds[2] + "." + ds[3]));
    }
  }

  /** Number of '.' characters. */
  function DotCount(s: string): nat
    decreases |s|
  {
    if |s| == 0 then 0 else (if s[0] == '.' then 1 else 0) + DotCount(s[1..])
  }

  /** validateIP. */
  predicate ValidateIP(s: string) {
    var scanned := ScanFields(s, 4);
    && scanned.Some?
    // anything left over would have been read by the trailing %c
    && |scanned.value.1| == 0
    && (forall i :: 0 <= i < 4 ==> 0 <= DecimalValue(scanned.value.0[i]) <= 255)
    && DotCount(s) == 3
  }

  /** validateAlias: only the length is checked, and strlen counts bytes. */
  predicate ValidateAlias(s: string) {
    ByteLength(s) <= MaxAliasLength
  }

  /** Seven accented letters are fourteen bytes: too long, though only seven characters. */
  lemma AccentedAliasTooLong()
    ensures |"ééééééé"| == 7
    ensures !ValidateAlias("ééééééé")
  {
  }

  /** For ASCII text bytes are characters: an alias passes exactly when it has at most ten. */
  lemma AsciiAliasFits(s: string)
    requires forall i :: 0 <= i < |s| ==> s[i] as int < 0x80
    ensures ValidateAlias(s) <==> |s| <= MaxAliasLength
  {
    ByteLengthOfAscii(s);
  }

  // ---------------------------------------------------------------------
  // The grammar validateIP accepts, stated independently of the scanner.

  predicate IsOctetText(d: string) {
    |d| > 0 && AllDigits(d) && DecimalValue(d) <= 255
  }

  /** `s` is four octet texts joined by single dots. */
  predicate IsDottedQuad(s: string, ds: seq<string>) {
    && |ds| == 4
    && (forall i :: 0 <= i < 4 ==> IsOctetText(ds[i]))
    && s == JoinDots(ds)
  }

  lemma {:induction false} DotCountAppend(a: string, b: string)
    ensures DotCount(a + b) == DotCount(a) + DotCount(b)
    decreases |a|
  {
    if |a| == 0 {
      assert a + b == b;
    } else {
      assert (a + b)[1..] == a[1..] + b;
      DotCountAppend(a[1..], b);
    }
  }

  lemma {:induction false} DotCountDigits(d: string)
    requires AllDigits(d)
    ensures DotCount(d) == 0
    decreases |d|
  {
    if |d| > 0 {
      DotCountDigits(d[1..]);
    }
  }

  /** Dot-joined digit texts hold one dot fewer than they have parts. */
  lemma {:induction false} DotCountJoin(ds: seq<string>)
    requires |ds| >= 1
    requires forall i :: 0 <= i < |ds| ==> AllDigits(ds[i])
    ensures DotCount(JoinDots(ds)) == |ds| - 1
    decreases |ds|
  {
    DotCountDigits(ds[0]);
    if |ds| > 1 {
      DotCountJoin(ds[1..]);
      DotCountAppend(ds[0], ".");
      DotCountAppend(ds[0] + ".", JoinDots(ds[1..]));
    }
  }

  /** A digit run followed by something that is not a digit is read whole. */
  lemma {:induction false} DigitRunOf(d: string, rest: string)
    requires AllDigits(d)
    requires |rest| == 0 || !IsDigit(rest[0])
    ensures DigitRun(d + rest) == |d|
    decreases |d|
  {
    if |d| > 0 {
      assert (d + rest)[1..] == d[1..] + rest;
      DigitRunOf(d[1..], rest);
    }
  }

  /** One digit text then something that is not a digit: one conversion reads it whole. */
  lemma ScanDecimalOf(d: string, rest: string)
    requires |d| > 0 && AllDigits(d)
    requires |rest| == 0 || !IsDigit(rest[0])
    ensures ScanDecimal(d + rest) == Some((d, rest))
  {
    var s := d + rest;
    DigitRunOf(d, rest);
    assert s[..|d|] == d;
    assert s[|d|..] == rest;
  }

  /** A digit text, a dot, and a text the remaining conversions read. */
  lemma ScanFieldsStep(d: string, tail: string, n: nat, ds: seq<string>, rest: string)
    requires n >= 2
    requires |d| > 0 && AllDigits(d)
    requires ScanFields(tail, n - 1) == Some((ds, rest))
    ensures ScanFields(d + "." + tail, n) == Some(([d] + ds, rest))
  {
    var s := d + "." + tail;
    assert s == d + ("." + tail);
    ScanDecimalOf(d, "." + tail);
    assert ("." + tail)[1..] == tail;
  }

  lemma ScanFieldsLast(d: string)
    requires |d| > 0 && AllDigits(d)
    ensures ScanFields(d, 1) == Some(([d], ""))
  {
    ScanDecimalOf(d, "");
    assert d + "" == d;
  }

  /** The scanner reads four digit texts joined by dots back as they were. */
  lemma ScanFieldsOfQuad(ds: seq<string>)
    requires |ds| == 4 && AllFields(ds)
    ensures ScanFields(ds[0] + "." + (ds[1] + "." + (ds[2] + "." + ds[3])), 4) == Some((ds, ""))
  {
    var t2 := ds[2] + "." + ds[3];
    var t1 := ds[1] + "." + t2;
    ScanFieldsLast(ds[3]);
    ScanFieldsStep(ds[2], ds[3], 2, [ds[3]], "");
    ScanFieldsStep(ds[1], t2, 3, [ds[2]] + [ds[3]], "");
    ScanFieldsStep(ds[0], t1, 4, [ds[1]] + ([ds[2]] + [ds[3]]), "");
    FourParts(ds);
  }

  lemma FourParts(ds: seq<string>)
    requires |ds| == 4
    ensures [ds[0]] + ([ds[1]] + ([ds[2]] + [ds[3]])) == ds
  {
  }

  /** Every four octet texts joined by dots pass validateIP. */
  lemma ValidateIPComplete(s: string, ds: seq<string>)
    requires IsDottedQuad(s, ds)
    ensures ValidateIP(s)
  {
    assert AllFields(ds) by {
      forall i | 0 <= i < |ds| ensures |ds[i]| > 0 && AllDigits(ds[i]) {
        assert IsOctetText(ds[i]);
      }
    }
    JoinDotsFour(ds);
    assert s == ds[0] + "." + (ds[1] + "." + (ds[2] + "." + ds[3]));
    ScanFieldsOfQuad(ds);
    DotCountJoin(ds);
  }

  /** Whatever validateIP accepts is four octet texts joined by dots. */
  lemma ValidateIPSound(s: string)
    requires ValidateIP(s)
    ensures exists ds :: IsDottedQuad(s, ds)
  {
    var ds := ScanFields(s, 4).value.0;
    ScanFieldsRejoins(s, 4);
    ScanFieldsReadsDigits(s, 4);
    assert s == JoinDots(ds) + "";
    assert IsDottedQuad(s, ds);
  }

  // ---------------------------------------------------------------------
  // isValidIPv4Prefix

  /** The first `n` characters of `s`, as snprintf leaves them in a buffer of `n + 1` bytes. */
  function Truncate(s: string, n: nat): (r: string)
    ensures |r| <= n && r <= s
    ensures |s| <= n ==> r == s
  {
    if |s| <= n then s else s[..n]
  }

  /** isValidIPv4Prefix exactly as written: `snprintf(temp, 16, "%s.0.0", prefix)`
      silently cuts the text at 15 characters before validateIP sees it. */
  predicate IsValidIPv4PrefixAsWritten(p: string) {
    ValidateIP(Truncate(p + ".0.0", PrefixBufferSize - 1))
  }

  /** isValidIPv4Prefix as intended: the prefix with ".0.0" appended is a valid address. */
  predicate IsValidIPv4Prefix(p: string) {
    ValidateIP(p + ".0.0")
  }

  lemma DecimalZero()
    ensures IsOctetText("0")
  {
    assert "0"[..0] == "";
  }

  lemma DotCountSuffix()
    ensures DotCount(".0.0") == 2
  {
    assert ".0.0"[1..] == "0.0";
    assert "0.0"[1..] == ".0";
    assert ".0"[1..] == "0";
    assert "0"[1..] == "";
  }

  /** Four copies of one octet text make a valid address with three dots. */
  lemma RepeatedOctetIsValid(h: string)
    requires IsOctetText(h)
    ensures ValidateIP(h + "." + h + "." + h + "." + h)
    ensures DotCount(h + "." + h + "." + h + "." + h) == 3
  {
    var ds := [h, h, h, h];
    JoinDotsFour(ds);
    ValidateIPComplete(h + "." + h + "." + h + "." + h, ds);
    DotCountJoin(ds);
  }

  /** The truncation lets a full 15-character address, such as
      "100.100.100.100", through as a "prefix". */
  lemma AsWrittenAcceptsFullAddress(h: string)
    requires IsOctetText(h) && |h| == 3
    ensures IsValidIPv4PrefixAsWritten(h + "." + h + "." + h + "." + h)
    ensures !IsValidIPv4Prefix(h + "." + h + "." + h + "." + h)
  {
    var p := h + "." + h + "." + h + "." + h;
    RepeatedOctetIsValid(h);
    assert |p| == PrefixBufferSize - 1;
    assert (p + ".0.0")[..PrefixBufferSize - 1] == p;
    PrefixHasOneDot(p);
  }

  /** The corrected check only accepts texts with a single dot ... */
  lemma PrefixHasOneDot(p: string)
    ensures IsValidIPv4Prefix(p) ==> DotCount(p) == 1
  {
    DotCountAppend(p, ".0.0");
    DotCountSuffix();
  }

  /** ... and accepts every pair of octet texts joined by a dot. */
  lemma PrefixComplete(x: string, y: string)
    requires IsOctetText(x) && IsOctetText(y)
    ensures IsValidIPv4Prefix(x + "." + y)
  {
    var ds := [x, y, "0", "0"];
    DecimalZero();
    JoinDotsFour(ds);
    assert x + "." + y + "." + "0" + "." + "0" == (x + "." + y) + ".0.0";
    ValidateIPComplete((x + "." + y) + ".0.0", ds);
  }

  /** A trailing ".0" on one side and a trailing digit field on the other
      must be the same field. */
  lemma PeelLastField(a: string, b: string, d: string)
    requires |d| > 0 && AllDigits(d)
    requires a + ".0" == b + "." + d
    ensures d == "0" && a == b
  {
    var s := a + ".0";
    assert s[|s| - 2] == '.';
    assert d[0] == s[|s| - 1];
    assert a == s[..|a|] == b;
  }

  /** A dotted quad whose last two fields are ".0.0"-shaped after `p` has `p`
      as its first two fields. */
  lemma PeelZeroFields(p: string, ds: seq<string>)
    requires |ds| == 4 && AllFields(ds)
    requires p + ".0.0" == JoinDots(ds)
    ensures p == ds[0] + "." + ds[1]
  {
    JoinDotsFour(ds);
    var b2 := ds[0] + "." + ds[1];
    var b3 := b2 + "." + ds[2];
    assert (p + ".0") + ".0" == b3 + "." + ds[3];
    PeelLastField(p + ".0", b3, ds[3]);
    PeelLastField(p, b2, ds[2]);
  }

  /** Every prefix isValidIPv4Prefix (as intended) accepts is two octets joined by a dot. */
  lemma PrefixSound(p: string)
    requires IsValidIPv4Prefix(p)
    ensures exists x, y :: IsOctetText(x) && IsOctetText(y) && p == x + "." + y
  {
    ValidateIPSound(p + ".0.0");
    var ds :| IsDottedQuad(p + ".0.0", ds);
    assert AllFields(ds) by {
      forall i | 0 <= i < |ds| ensures |ds[i]| > 0 && AllDigits(ds[i]) {
        assert IsOctetText(ds[i]);
      }
    }
    PeelZeroFields(p, ds);
    assert IsOctetText(ds[0]) && IsOctetText(ds[1]);
  }

  /** For every text the caller's 8-byte buffer can hold, the two versions agree. */
  lemma PrefixVersionsAgreeOnShortInput(p: string)
    requires |p| <= PrefixBufferSize - 1 - 4
    ensures IsValidIPv4PrefixAsWritten(p) <==> IsValidIPv4Prefix(p)
  {
  }
}
