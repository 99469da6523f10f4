/** Hardware (MAC) addresses as the program handles them: the format check
    the address panel applies before any registry write, the normaliser that
    turns an address into the registry's separator-free form, and the
    formatter behind the "random address" button. */
module MacAddress {
  import opened PyText

  /** `[0-9A-Fa-f]` */
  predicate IsHexDigit(c: char) {
    '0' <= c <= '9' || 'A' <= c <= 'F' || 'a' <= c <= 'f'
  }

  /** `[-:]` */
  predicate IsSeparator(c: char) {
    c == '-' || c == ':'
  }

  // ---------------------------------------------------------------------
  // The validator, shaped like the regular expression
  //   ^([0-9A-Fa-f]{2}[-:]){5}[0-9A-Fa-f]{2}$|^[0-9A-Fa-f]{12}$
  // used with `re.match`.
  // ---------------------------------------------------------------------

  /** `[0-9A-Fa-f]{2}` matches at index `p`. */
  predicate HexPairAt(s: string, p: nat) {
    p + 2 <= |s| && IsHexDigit(s[p]) && IsHexDigit(s[p + 1])
  }

  /** `[0-9A-Fa-f]{n}` matches at index `i`. */
  predicate HexRunAt(s: string, i: nat, n: nat)
    decreases n
  {
    n == 0 || (i < |s| && IsHexDigit(s[i]) && HexRunAt(s, i + 1, n - 1))
  }

  /** `([0-9A-Fa-f]{2}[-:]){n}` matches at index `i`. */
  predicate GroupsAt(s: string, i: nat, n: nat)
    decreases n
  {
    n == 0 || (HexPairAt(s, i) && i + 2 < |s| && IsSeparator(s[i + 2]) && GroupsAt(s, i + 3, n - 1))
  }

  /** Python's `$` without MULTILINE: the end of the string, or just before
      a newline that ends it. */
  predicate EndAt(s: string, i: nat) {
    i == |s| || (i + 1 == |s| && s[i] == '\n')
  }

  /** `mac_pattern.match(s)` succeeds. A match is 17 or 12 characters long,
      plus at most one final newline. */
  predicate MacPatternMatches(s: string)
    ensures MacPatternMatches(s) ==> |s| in {12, 13, 17, 18}
  {
    (GroupsAt(s, 0, 5) && HexPairAt(s, 15) && EndAt(s, 17))
    || (HexRunAt(s, 0, 12) && EndAt(s, 12))
  }

  // ---------------------------------------------------------------------
  // What the pattern means, stated octet by octet.
  // ---------------------------------------------------------------------

  /** Six hex pairs at characters 0, 3, ..., 15, with a `-` or `:` after
      each of the first five; the separators may be mixed. */
  ghost predicate SeparatedForm(s: string) {
    && |s| == 17
    && (forall i :: 0 <= i < 6 ==> HexPairAt(s, 3 * i))
    && (forall i :: 0 <= i < 5 ==> IsSeparator(s[3 * i + 2]))
  }

  /** Twelve hex digits and nothing else. */
  ghost predicate BareForm(s: string) {
    |s| == 12 && forall k :: 0 <= k < 12 ==> IsHexDigit(s[k])
  }

  /** The two textual forms of an address the program accepts. */
  ghost predicate WellFormedMac(s: string) {
    SeparatedForm(s) || BareForm(s)
  }

  lemma {:induction false} HexRunAtIff(s: string, i: nat, n: nat)
    requires i <= |s|
    ensures HexRunAt(s, i, n) <==> i + n <= |s| && forall k :: i <= k < i + n ==> IsHexDigit(s[k])
    decreases n
  {
    if n > 0 && i < |s| {
      HexRunAtIff(s, i + 1, n - 1);
    }
  }

  lemma {:induction false} GroupsAtIff(s: string, i: nat, n: nat)
    requires i <= |s|
    ensures GroupsAt(s, i, n) <==>
      i + 3 * n <= |s| && forall j :: 0 <= j < n ==> HexPairAt(s, i + 3 * j) && IsSeparator(s[i + 3 * j + 2])
    decreases n
  {
    if n > 0 && i + 3 <= |s| {
      GroupsAtIff(s, i + 3, n - 1);
      if GroupsAt(s, i, n) {
        forall j | 0 <= j < n ensures HexPairAt(s, i + 3 * j) && IsSeparator(s[i + 3 * j + 2]) {
          if j > 0 {
            assert i + 3 * j == (i + 3) + 3 * (j - 1);
          }
        }
      } else if i + 3 * n <= |s| && forall j :: 0 <= j < n ==> HexPairAt(s, i + 3 * j) && IsSeparator(s[i + 3 * j + 2]) {
        assert HexPairAt(s, i + 3 * 0) && IsSeparator(s[i + 3 * 0 + 2]);
        forall j | 0 <= j < n - 1 ensures HexPairAt(s, (i + 3) + 3 * j) && IsSeparator(s[(i + 3) + 3 * j + 2]) {
          assert (i + 3) + 3 * j == i + 3 * (j + 1);
        }
        assert false;
      }
    }
  }

  /** The two branches of the pattern, read without the `$`: each matches
      exactly when the string begins with the corresponding form. */
  lemma PatternBranches(s: string)
    ensures GroupsAt(s, 0, 5) && HexPairAt(s, 15) <==> |s| >= 17 && SeparatedForm(s[..17])
    ensures HexRunAt(s, 0, 12) <==> |s| >= 12 && BareForm(s[..12])
  {
    SeparatedBranch(s);
    BareBranch(s);
  }

  lemma SeparatedBranch(s: string)
    ensures GroupsAt(s, 0, 5) && HexPairAt(s, 15) <==> |s| >= 17 && SeparatedForm(s[..17])
  {
    GroupsAtIff(s, 0, 5);
    if |s| >= 17 {
      var t := s[..17];
      assert forall p :: p + 2 <= 17 ==> (HexPairAt(t, p) <==> HexPairAt(s, p));
      if SeparatedForm(t) {
        assert HexPairAt(t, 3 * 5);
        assert forall j :: 0 <= j < 5 ==> HexPairAt(t, 3 * j) && IsSeparator(t[3 * j + 2]);
      }
    }
  }

  lemma BareBranch(s: string)
    ensures HexRunAt(s, 0, 12) <==> |s| >= 12 && BareForm(s[..12])
  {
    HexRunAtIff(s, 0, 12);
    if |s| >= 12 {
      var t := s[..12];
      assert forall k :: 0 <= k < 12 ==> t[k] == s[k];
    }
  }

  /** The pattern accepts either accepted form, or either form followed by
      one newline (because of how `$` behaves), and nothing else. */
  lemma MacPatternIff(s: string)
    ensures MacPatternMatches(s) <==>
      WellFormedMac(s) || (|s| > 0 && s[|s| - 1] == '\n' && WellFormedMac(s[..|s| - 1]))
  {
    PatternBranches(s);
    if |s| == 17 || |s| == 12 {
      assert s[..|s|] == s;
    }
    if |s| == 18 || |s| == 13 {
      assert s[..|s| - 1] == s[..|s| - 1][..|s| - 1];
    }
  }

  /** The address panel strips the entry before validating it, so for what
      it validates the pattern accepts exactly the two forms. */
  lemma ValidatorOnTrimmed(s: string)
    requires IsTrimmed(s)
    ensures MacPatternMatches(s) <==> WellFormedMac(s)
  {
    MacPatternIff(s);
  }

  // ---------------------------------------------------------------------
  // The normaliser.
  // ---------------------------------------------------------------------

  /** `new_mac.replace('-', '').replace(':', '')`: no separator is left and
      the result is no longer than the input. */
  function Normalise(s: string): (r: string)
    ensures '-' !in r && ':' !in r
    ensures |r| <= |s|
  {
    RemoveChar(RemoveChar(s, '-'), ':')
  }

  /** The result holds no separator, and every other character of the
      input, and nothing else. */
  lemma NormaliseChars(s: string)
    ensures forall c :: c in Normalise(s) <==> c in s && !IsSeparator(c)
  {
  }

  /** Normalising works piecewise, so the kept characters stay in order. */
  lemma NormaliseAppend(a: string, b: string)
    ensures Normalise(a + b) == Normalise(a) + Normalise(b)
  {
    RemoveCharAppend(a, b, '-');
    RemoveCharAppend(RemoveChar(a, '-'), RemoveChar(b, '-'), ':');
  }

  /** A string with no separator is left alone. */
  lemma NormaliseNoSeparator(s: string)
    requires forall k :: 0 <= k < |s| ==> !IsSeparator(s[k])
    ensures Normalise(s) == s
  {
    RemoveCharAbsent(s, '-');
    RemoveCharAbsent(s, ':');
  }

  /** Normalising twice is normalising once. */
  lemma NormaliseIdempotent(s: string)
    ensures Normalise(Normalise(s)) == Normalise(s)
  {
    NormaliseNoSeparator(Normalise(s));
  }

  /** The hex digits of `n` separated pairs and a final pair starting at
      index `i`, in their order. */
  ghost function PairDigits(s: string, i: nat, n: nat): string
    requires i + 3 * n + 2 <= |s|
    decreases n
  {
    if n == 0 then s[i..i + 2] else s[i..i + 2] + PairDigits(s, i + 3, n - 1)
  }

  /** The digits gathered from `n` separated pairs and a final pair:
      `2 * n + 2` hex digits. */
  lemma {:induction false} PairDigitsHex(s: string, i: nat, n: nat)
    requires GroupsAt(s, i, n) && HexPairAt(s, i + 3 * n)
    ensures |PairDigits(s, i, n)| == 2 * n + 2
    ensures forall k :: 0 <= k < 2 * n + 2 ==> IsHexDigit(PairDigits(s, i, n)[k])
    decreases n
  {
    if n > 0 {
      PairDigitsHex(s, i + 3, n - 1);
      var d := PairDigits(s, i, n);
      var tail := PairDigits(s, i + 3, n - 1);
      assert d == s[i..i + 2] + tail;
      forall k | 0 <= k < 2 * n + 2 ensures IsHexDigit(d[k]) {
        if k >= 2 {
          assert d[k] == tail[k - 2];
        }
      }
    }
  }

  /** Normalising `n` separated pairs and a final pair drops exactly the
      separators and keeps the digits in order. */
  lemma NormaliseSeparatorChar(c: char)
    requires IsSeparator(c)
    ensures Normalise([c]) == ""
  {
    assert [c][1..] == "";
  }

  /** One hex pair and its separator, in front of the rest: the pair is
      kept, the separator dropped. */
  lemma NormaliseStep(a: string, c: char, rest: string)
    requires |a| == 2 && !IsSeparator(a[0]) && !IsSeparator(a[1]) && IsSeparator(c)
    ensures Normalise(a + [c] + rest) == a + Normalise(rest)
  {
    NormaliseNoSeparator(a);
    NormaliseSeparatorChar(c);
    NormaliseAppend(a, [c]);
    NormaliseAppend(a + [c], rest);
    assert Normalise(a + [c]) == a + "";
    assert a + "" == a;
  }

  lemma {:induction false} NormaliseGroups(s: string, i: nat, n: nat)
    requires GroupsAt(s, i, n) && HexPairAt(s, i + 3 * n)
    ensures Normalise(s[i..i + 3 * n + 2]) == PairDigits(s, i, n)
    decreases n
  {
    var a := s[i..i + 2];
    assert HexPairAt(s, i);
    assert !IsSeparator(a[0]) && !IsSeparator(a[1]);
    if n == 0 {
      NormaliseNoSeparator(a);
    } else {
      var rest := s[i + 3..i + 3 * n + 2];
      assert s[i..i + 3 * n + 2] == a + [s[i + 2]] + rest;
      assert i + 3 * n == (i + 3) + 3 * (n - 1);
      NormaliseGroups(s, i + 3, n - 1);
      NormaliseStep(a, s[i + 2], rest);
      assert PairDigits(s, i, n) == a + PairDigits(s, i + 3, n - 1);
    }
  }

  /** Normalising the separated form yields its six pairs, in order. */
  lemma NormaliseSeparated(s: string)
    requires SeparatedForm(s)
    ensures Normalise(s) == s[0..2] + s[3..5] + s[6..8] + s[9..11] + s[12..14] + s[15..17]
  {
    PatternBranches(s);
    assert s[..17] == s;
    NormaliseGroups(s, 0, 5);
    assert s[0..17] == s;
  }

  /** Every address the panel accepts normalises to exactly twelve hex
      digits: the registry value written is always of that shape. */
  lemma NormaliseWellFormed(s: string)
    requires WellFormedMac(s)
    ensures |Normalise(s)| == 12
    ensures forall k :: 0 <= k < 12 ==> IsHexDigit(Normalise(s)[k])
  {
    if SeparatedForm(s) {
      PatternBranches(s);
      assert s[..17] == s;
      NormaliseGroups(s, 0, 5);
      PairDigitsHex(s, 0, 5);
      assert s[0..17] == s;
    } else {
      NormaliseNoSeparator(s);
    }
  }

  // ---------------------------------------------------------------------
  // The random-address formatter.
  // ---------------------------------------------------------------------

  function UpperHexDigit(d: nat): (c: char)
    requires d < 16
  {
    if d < 10 then ('0' as int + d) as char else ('A' as int + d - 10) as char
  }

  function HexDigitValue(c: char): (d: nat)
    requires IsHexDigit(c)
    ensures d < 16
  {
    if '0' <= c <= '9' then c as int - '0' as int
    else if 'A' <= c <= 'F' then c as int - 'A' as int + 10
    else c as int - 'a' as int + 10
  }

  /** `"%02X" % x` for a byte. */
  function HexByte(x: nat): (r: string)
    requires x < 256
  {
    [UpperHexDigit(x / 16), UpperHexDigit(x % 16)]
  }

  /** `'-'.join(map(lambda x: "%02X" % x, [0x00, 0x16, 0x3e, b3, b4, b5]))`;
      the three random draws are parameters, with the ranges
      `random.randint` gives them. */
  function FormatRandomMac(b3: nat, b4: nat, b5: nat): (r: string)
    requires b3 <= 0x7f && b4 <= 0xff && b5 <= 0xff
    ensures |r| == 17 && r[..9] == "00-16-3E-"
  {
    JoinPairs(HexByte(0x00), HexByte(0x16), HexByte(0x3e), HexByte(b3), HexByte(b4), HexByte(b5), '-');
    Join([HexByte(0x00), HexByte(0x16), HexByte(0x3e), HexByte(b3), HexByte(b4), HexByte(b5)], '-')
  }

  /** Byte `i` of an address in the separated form. */
  function OctetOf(s: string, i: nat): (b: nat)
    requires i < 6 && HexPairAt(s, 3 * i)
    ensures b < 256
  {
    16 * HexDigitValue(s[3 * i]) + HexDigitValue(s[3 * i + 1])
  }

  /** Six two-character pieces joined by `sep`, character by character. */
  lemma JoinPairs(a: string, b: string, c: string, d: string, e: string, f: string, sep: char)
    requires |a| == 2 && |b| == 2 && |c| == 2 && |d| == 2 && |e| == 2 && |f| == 2
    ensures Join([a, b, c, d, e, f], sep) ==
      [a[0], a[1], sep, b[0], b[1], sep, c[0], c[1], sep, d[0], d[1], sep, e[0], e[1], sep, f[0], f[1]]
  {
    var j5 := Join([f], sep);
    assert j5 == [f[0], f[1]];
    var j4 := Join([e, f], sep);
    assert [e, f][1..] == [f];
    assert j4 == e + [sep] + j5;
    assert j4 == [e[0], e[1], sep, f[0], f[1]];
    var j3 := Join([d, e, f], sep);
    assert [d, e, f][1..] == [e, f];
    assert j3 == d + [sep] + j4;
    assert j3 == [d[0], d[1], sep] + j4;
    var j2 := Join([c, d, e, f], sep);
    assert [c, d, e, f][1..] == [d, e, f];
    assert j2 == c + [sep] + j3;
    assert j2 == [c[0], c[1], sep] + j3;
    var j1 := Join([b, c, d, e, f], sep);
    assert [b, c, d, e, f][1..] == [c, d, e, f];
    assert j1 == b + [sep] + j2;
    assert j1 == [b[0], b[1], sep] + j2;
    var j0 := Join([a, b, c, d, e, f], sep);
    assert [a, b, c, d, e, f][1..] == [b, c, d, e, f];
    assert j0 == a + [sep] + j1;
    assert j0 == [a[0], a[1], sep] + j1;
  }

  /** The generated address character by character. */
  lemma RandomMacChars(b3: nat, b4: nat, b5: nat)
    requires b3 <= 0x7f && b4 <= 0xff && b5 <= 0xff
    ensures FormatRandomMac(b3, b4, b5) ==
      ['0', '0', '-', '1', '6', '-', '3', 'E', '-',
       UpperHexDigit(b3 / 16), UpperHexDigit(b3 % 16), '-',
       UpperHexDigit(b4 / 16), UpperHexDigit(b4 % 16), '-',
       UpperHexDigit(b5 / 16), UpperHexDigit(b5 % 16)]
  {
    JoinPairs(HexByte(0x00), HexByte(0x16), HexByte(0x3e), HexByte(b3), HexByte(b4), HexByte(b5), '-');
  }

  /** Upper-case hex digits read back as the value written. */
  lemma UpperHexDigitRoundTrip(d: nat)
    requires d < 16
    ensures IsHexDigit(UpperHexDigit(d)) && HexDigitValue(UpperHexDigit(d)) == d
    ensures !('a' <= UpperHexDigit(d) <= 'z')
  {
  }

  /** The generated address is 17 upper-case characters in the hyphenated
      form, starts with the fixed prefix `00-16-3E`, its fourth octet is at
      most `7F`, its six octets read back as the bytes drawn, and the first
      octet has the locally-administered bit (bit 1) clear. */
  lemma RandomMacShape(b3: nat, b4: nat, b5: nat)
    requires b3 <= 0x7f && b4 <= 0xff && b5 <= 0xff
    ensures var r := FormatRandomMac(b3, b4, b5);
      && |r| == 17
      && r[..8] == "00-16-3E"
      && SeparatedForm(r)
      && (forall i :: 0 <= i < 5 ==> r[3 * i + 2] == '-')
      && (forall k :: 0 <= k < 17 ==> !('a' <= r[k] <= 'z'))
      && OctetOf(r, 3) <= 0x7f
      && [OctetOf(r, 0), OctetOf(r, 1), OctetOf(r, 2), OctetOf(r, 3), OctetOf(r, 4), OctetOf(r, 5)]
         == [0x00, 0x16, 0x3e, b3, b4, b5]
      && OctetOf(r, 0) / 2 % 2 == 0
  {
    RandomMacDigits(b3, b4, b5);
    RandomMacOctets(b3, b4, b5);
  }

  /** The hex pairs of the generated address, each in upper case, and the
      hyphens between them. */
  lemma RandomMacDigits(b3: nat, b4: nat, b5: nat)
    requires b3 <= 0x7f && b4 <= 0xff && b5 <= 0xff
    ensures var r := FormatRandomMac(b3, b4, b5);
      && |r| == 17
      && r[..8] == "00-16-3E"
      && (forall i :: 0 <= i < 5 ==> r[3 * i + 2] == '-')
      && (forall i :: 0 <= i < 6 ==> HexPairAt(r, 3 * i))
      && (forall k :: 0 <= k < 17 ==> !('a' <= r[k] <= 'z'))
  {
    RandomMacChars(b3, b4, b5);
    UpperHexDigitRoundTrip(b3 / 16);
    UpperHexDigitRoundTrip(b3 % 16);
    UpperHexDigitRoundTrip(b4 / 16);
    UpperHexDigitRoundTrip(b4 % 16);
    UpperHexDigitRoundTrip(b5 / 16);
    UpperHexDigitRoundTrip(b5 % 16);
    var r := FormatRandomMac(b3, b4, b5);
    assert HexPairAt(r, 0) && HexPairAt(r, 3) && HexPairAt(r, 6);
    assert HexPairAt(r, 9) && HexPairAt(r, 12) && HexPairAt(r, 15);
  }

  /** The octets of the generated address read back as the bytes drawn. */
  lemma RandomMacOctets(b3: nat, b4: nat, b5: nat)
    requires b3 <= 0x7f && b4 <= 0xff && b5 <= 0xff
    ensures var r := FormatRandomMac(b3, b4, b5);
      && (forall i :: 0 <= i < 6 ==> HexPairAt(r, 3 * i))
      && [OctetOf(r, 0), OctetOf(r, 1), OctetOf(r, 2), OctetOf(r, 3), OctetOf(r, 4), OctetOf(r, 5)]
         == [0x00, 0x16, 0x3e, b3, b4, b5]
  {
    RandomMacDigits(b3, b4, b5);
    RandomMacChars(b3, b4, b5);
    UpperHexDigitRoundTrip(b3 / 16);
    UpperHexDigitRoundTrip(b3 % 16);
    UpperHexDigitRoundTrip(b4 / 16);
    UpperHexDigitRoundTrip(b4 % 16);
    UpperHexDigitRoundTrip(b5 / 16);
    UpperHexDigitRoundTrip(b5 % 16);
  }

  /** Every generated address passes the panel's validator. */
  lemma RandomMacValidates(b3: nat, b4: nat, b5: nat)
    requires b3 <= 0x7f && b4 <= 0xff && b5 <= 0xff
    ensures MacPatternMatches(FormatRandomMac(b3, b4, b5))
  {
    RandomMacShape(b3, b4, b5);
    MacPatternIff(FormatRandomMac(b3, b4, b5));
  }

  // Examples of accepted and rejected entries.

  lemma AcceptedExamples()
    ensures MacPatternMatches("AA-BB-CC-DD-EE-FF")
    ensures MacPatternMatches("aa:bb:cc:dd:ee:ff")
    ensures MacPatternMatches("AA-BB:CC-DD:EE-FF")
    ensures MacPatternMatches("AABBCCDDEEFF")
  {
    AcceptsHyphens();
    AcceptsColons();
    AcceptsMixed();
    HexRunAtIff("AABBCCDDEEFF", 0, 12);
  }

  // One example each, so that each is checked on its own.

  lemma AcceptsHyphens()
    ensures MacPatternMatches("AA-BB-CC-DD-EE-FF")
  {
  }

  lemma AcceptsColons()
    ensures MacPatternMatches("aa:bb:cc:dd:ee:ff")
  {
  }

  lemma AcceptsMixed()
    ensures MacPatternMatches("AA-BB:CC-DD:EE-FF")
  {
  }

  lemma RejectedExamples()
    ensures !MacPatternMatches("AA-BB-CC-DD-EE")
    ensures !MacPatternMatches("AABBCCDDEEFG")
  {
    HexRunAtIff("AABBCCDDEEFG", 0, 12);
    assert !IsHexDigit("AABBCCDDEEFG"[11]);
  }
}
