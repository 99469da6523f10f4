/** The Python `str` operations the program builds on (`strip`, `split`,
    `join`, `replace`, `lower`, `in`, filtered comprehensions), given a
    meaning here so that the parsers and validators can be stated over them. */
module PyText {
  import opened Wrappers

  /** The characters for which Python's `str.isspace()` holds; `str.strip()`
      with no argument removes exactly these from both ends. */
  predicate IsSpace(c: char) {
    ('\t' <= c <= '\r') || ('\U{1c}' <= c <= '\U{1f}') || c == ' '
    || c == '\U{85}' || c == '\U{a0}' || c == '\U{1680}'
    || ('\U{2000}' <= c <= '\U{200a}') || c == '\U{2028}' || c == '\U{2029}'
    || c == '\U{202f}' || c == '\U{205f}' || c == '\U{3000}'
  }

  /** Neither end of `s` is whitespace. */
  predicate IsTrimmed(s: string) {
    |s| == 0 || (!IsSpace(s[0]) && !IsSpace(s[|s| - 1]))
  }

  /** `s.lstrip()`: a suffix of `s`, everything dropped is whitespace. */
  function LStrip(s: string): (r: string)
    ensures |r| <= |s| && r == s[|s| - |r|..]
    ensures forall k :: 0 <= k < |s| - |r| ==> IsSpace(s[k])
    ensures |r| == 0 || !IsSpace(r[0])
  {
    if |s| > 0 && IsSpace(s[0]) then LStrip(s[1..]) else s
  }

  /** `s.rstrip()`: a prefix of `s`, everything dropped is whitespace. */
  function RStrip(s: string): (r: string)
    ensures |r| <= |s| && r == s[..|r|]
    ensures forall k :: |r| <= k < |s| ==> IsSpace(s[k])
    ensures |r| == 0 || !IsSpace(r[|r| - 1])
  {
    if |s| > 0 && IsSpace(s[|s| - 1]) then RStrip(s[..|s| - 1]) else s
  }

  /** `s.strip()`: `s` without its leading and trailing whitespace. */
  function Strip(s: string): (r: string)
    ensures IsTrimmed(r)
    ensures |r| <= |s|
  {
    var l := LStrip(s);
    var r := RStrip(l);
    assert |r| > 0 ==> r[0] == l[0];
    r
  }

  /** Stripping leaves nothing exactly when the string is all whitespace. */
  lemma StripEmpty(s: string)
    ensures Strip(s) == "" <==> forall k :: 0 <= k < |s| ==> IsSpace(s[k])
  {
    var l := LStrip(s);
    if RStrip(l) == "" {
      assert |l| == 0;
    } else {
      assert !IsSpace(s[|s| - |l|]);
    }
  }

  /** `s.split(sep)` with a one-character separator: the pieces between the
      occurrences of `sep`, so one more piece than there are separators. */
  function Split(s: string, sep: char): (r: seq<string>)
    ensures |r| >= 1
    ensures forall k :: 0 <= k < |r| ==> sep !in r[k]
  {
    if |s| == 0 then [""]
    else
      var rest := Split(s[1..], sep);
      if s[0] == sep then [""] + rest
      else [[s[0]] + rest[0]] + rest[1..]
  }

  /** `sep.join(parts)` with a one-character separator. */
  function Join(parts: seq<string>, sep: char): string
  {
    if |parts| == 0 then ""
    else if |parts| == 1 then parts[0]
    else parts[0] + [sep] + Join(parts[1..], sep)
  }

  /** Splitting a piece free of the separator, glued to a separator and a
      tail, yields that piece followed by the tail's pieces. */
  lemma {:induction false} SplitAfterPiece(a: string, sep: char, b: string)
    requires sep !in a
    ensures Split(a + [sep] + b, sep) == [a] + Split(b, sep)
  {
    if |a| > 0 {
      SplitAfterPiece(a[1..], sep, b);
      assert (a + [sep] + b)[1..] == a[1..] + [sep] + b;
      assert [a[0]] + a[1..] == a;
    } else {
      assert a + [sep] + b == [sep] + b;
      assert ([sep] + b)[1..] == b;
    }
  }

  /** Splitting a string without the separator yields the string alone. */
  lemma {:induction false} SplitNoSeparator(a: string, sep: char)
    requires sep !in a
    ensures Split(a, sep) == [a]
  {
    if |a| > 0 {
      SplitNoSeparator(a[1..], sep);
      assert [a[0]] + a[1..] == a;
    }
  }

  /** Splitting a join of separator-free pieces gives back the pieces. */
  lemma {:induction false} SplitJoin(parts: seq<string>, sep: char)
    requires |parts| >= 1
    requires forall k :: 0 <= k < |parts| ==> sep !in parts[k]
    ensures Split(Join(parts, sep), sep) == parts
  {
    if |parts| == 1 {
      SplitNoSeparator(parts[0], sep);
    } else {
      SplitJoin(parts[1..], sep);
      SplitAfterPiece(parts[0], sep, Join(parts[1..], sep));
      assert [parts[0]] + parts[1..] == parts;
    }
  }

  /** `s.replace(c, '')`: `s` with every occurrence of `c` removed. */
  function RemoveChar(s: string, c: char): (r: string)
    ensures c !in r
    ensures |r| <= |s|
    ensures forall x :: x in r <==> x in s && x != c
  {
    if |s| == 0 then ""
    else (if s[0] == c then "" else [s[0]]) + RemoveChar(s[1..], c)
  }

  /** Removal works piecewise, so every other character keeps its order. */
  lemma {:induction false} RemoveCharAppend(a: string, b: string, c: char)
    ensures RemoveChar(a + b, c) == RemoveChar(a, c) + RemoveChar(b, c)
  {
    if |a| > 0 {
      RemoveCharAppend(a[1..], b, c);
      assert (a + b)[1..] == a[1..] + b;
    } else {
      assert a + b == b;
    }
  }

  /** Removing a character that does not occur changes nothing. */
  lemma {:induction false} RemoveCharAbsent(s: string, c: char)
    requires c !in s
    ensures RemoveChar(s, c) == s
  {
    if |s| > 0 {
      RemoveCharAbsent(s[1..], c);
      assert [s[0]] + s[1..] == s;
    }
  }

  /** `c.lower()` for ASCII letters. */
  function LowerChar(c: char): char {
    if 'A' <= c <= 'Z' then (c as int + 32) as char else c
  }

  /** `s.lower()`, folding ASCII letters only. */
  function Lower(s: string): string {
    seq(|s|, i requires 0 <= i < |s| => LowerChar(s[i]))
  }

  /** `needle` occurs in `hay` starting at index `k`. */
  ghost predicate OccursAt(hay: string, needle: string, k: int) {
    0 <= k && k + |needle| <= |hay| && hay[k..k + |needle|] == needle
  }

  /** `needle in hay`, scanning the start positions from the left. */
  predicate Contains(hay: string, needle: string)
    decreases |hay|
  {
    |needle| <= |hay| && (hay[..|needle|] == needle || (|hay| > 0 && Contains(hay[1..], needle)))
  }

  /** An occurrence in the tail of `hay` is an occurrence in `hay`, one
      position further on. */
  lemma OccursShift(hay: string, needle: string, k: int)
    requires |hay| > 0 && k >= 0
    ensures OccursAt(hay[1..], needle, k) <==> OccursAt(hay, needle, k + 1)
  {
    if k + |needle| <= |hay[1..]| {
      assert hay[1..][k..k + |needle|] == hay[k + 1..k + 1 + |needle|];
    }
  }

  /** The scan finds `needle` exactly when it occurs somewhere in `hay`. */
  lemma {:induction false} ContainsIff(hay: string, needle: string)
    ensures Contains(hay, needle) <==> exists k :: OccursAt(hay, needle, k)
    decreases |hay|
  {
    if |needle| > |hay| {
      assert forall k :: !OccursAt(hay, needle, k);
    } else if hay[..|needle|] == needle {
      assert OccursAt(hay, needle, 0);
    } else if |hay| > 0 {
      ContainsIff(hay[1..], needle);
      if Contains(hay[1..], needle) {
        var k :| OccursAt(hay[1..], needle, k);
        OccursShift(hay, needle, k);
      } else {
        forall k | OccursAt(hay, needle, k) ensures false {
          if k > 0 {
            OccursShift(hay, needle, k - 1);
          }
        }
      }
    }
  }

  /** A comprehension with a filter, `[g(x) for x in xs if keep(x)]`, as
      one function `f` that maps each kept element to `Some(g(x))` and each
      dropped one to `None`. */
  function Collect<T, U>(xs: seq<T>, f: T -> Option<U>): seq<U> {
    if |xs| == 0 then []
    else (match f(xs[0]) case Some(u) => [u] case None => []) + Collect(xs[1..], f)
  }

  /** Elements are collected block by block, so their order is kept. */
  lemma {:induction false} CollectAppend<T, U>(xs: seq<T>, ys: seq<T>, f: T -> Option<U>)
    ensures Collect(xs + ys, f) == Collect(xs, f) + Collect(ys, f)
  {
    if |xs| == 0 {
      assert xs + ys == ys;
    } else {
      CollectAppend(xs[1..], ys, f);
      assert (xs + ys)[0] == xs[0];
      assert (xs + ys)[1..] == xs[1..] + ys;
      var head: seq<U> := match f(xs[0]) case Some(u) => [u] case None => [];
      ConcatAssoc(head, Collect(xs[1..], f), Collect(ys, f));
    }
  }

  /** `xs[:n]`: the first `n` elements, or all of them when there are
      fewer. */
  function Take<T>(xs: seq<T>, n: nat): seq<T> {
    if |xs| <= n then xs else xs[..n]
  }

  /** `xs[:n]` is a prefix of `xs` of at most `n` elements: the whole of
      `xs` when it is short enough, exactly `n` elements otherwise. */
  lemma TakePrefix<T>(xs: seq<T>, n: nat)
    ensures |Take(xs, n)| <= n && |Take(xs, n)| <= |xs|
    ensures Take(xs, n) == xs[..|Take(xs, n)|]
    ensures |xs| <= n ==> Take(xs, n) == xs
    ensures |xs| > n ==> |Take(xs, n)| == n
    ensures forall k :: 0 <= k < |Take(xs, n)| ==> Take(xs, n)[k] == xs[k]
  {
  }

  lemma ConcatAssoc<T>(x: seq<T>, y: seq<T>, z: seq<T>)
    ensures x + (y + z) == (x + y) + z
  {
  }

  /** A single element is collected alone, or not at all. */
  lemma CollectSingle<T, U>(x: T, f: T -> Option<U>)
    ensures Collect([x], f) == if f(x).Some? then [f(x).value] else []
  {
    assert [x][1..] == [];
    assert Collect([x][1..], f) == [];
  }

  /** Every collected element comes from some element of `xs`, and every
      element `f` keeps is collected; there are at most as many as in `xs`. */
  lemma {:induction false} CollectExact<T, U>(xs: seq<T>, f: T -> Option<U>)
    ensures |Collect(xs, f)| <= |xs|
    ensures forall k :: 0 <= k < |Collect(xs, f)| ==>
      exists j :: 0 <= j < |xs| && f(xs[j]) == Some(Collect(xs, f)[k])
    ensures forall j :: 0 <= j < |xs| && f(xs[j]).Some? ==> f(xs[j]).value in Collect(xs, f)
  {
    if |xs| > 0 {
      var tail := xs[1..];
      CollectExact(tail, f);
      var head: seq<U> := match f(xs[0]) case Some(u) => [u] case None => [];
      var r := Collect(xs, f);
      assert r == head + Collect(tail, f);
      forall k | 0 <= k < |r|
        ensures exists j :: 0 <= j < |xs| && f(xs[j]) == Some(r[k])
      {
        if k < |head| {
          assert f(xs[0]) == Some(r[k]);
        } else {
          assert r[k] == Collect(tail, f)[k - |head|];
          var j :| 0 <= j < |tail| && f(tail[j]) == Some(Collect(tail, f)[k - |head|]);
          assert xs[j + 1] == tail[j];
        }
      }
      forall j | 0 <= j < |xs| && f(xs[j]).Some?
        ensures f(xs[j]).value in r
      {
        if j > 0 {
          assert xs[j] == tail[j - 1];
        }
      }
    }
  }

  predicate IsDigit(c: char) {
    '0' <= c <= '9'
  }

  function DigitChar(d: nat): char
    requires d < 10
  {
    ('0' as int + d) as char
  }

  function DigitValue(c: char): nat
    requires IsDigit(c)
  {
    c as int - '0' as int
  }

  /** `str(n)` for a non-negative integer: decimal digits, no leading zero. */
  function Decimal(n: nat): (r: string)
    ensures |r| >= 1
    ensures forall k :: 0 <= k < |r| ==> IsDigit(r[k])
    ensures |r| > 1 ==> r[0] != '0'
  {
    if n < 10 then [DigitChar(n)] else Decimal(n / 10) + [DigitChar(n % 10)]
  }

  /** The number a run of decimal digits denotes, as `int(s)` reads it. */
  function DecimalValue(s: string): nat
    requires forall k :: 0 <= k < |s| ==> IsDigit(s[k])
  {
    if |s| == 0 then 0 else 10 * DecimalValue(s[..|s| - 1]) + DigitValue(s[|s| - 1])
  }

  /** Reading back what `str` wrote gives the number. */
  lemma {:induction false} DecimalRoundTrip(n: nat)
    ensures DecimalValue(Decimal(n)) == n
  {
    if n >= 10 {
      var r := Decimal(n);
      DecimalRoundTrip(n / 10);
      assert r[..|r| - 1] == Decimal(n / 10);
    }
  }

  /** Numbers from 1000 to 9999 have four digits. */
  lemma FourDigits(n: nat)
    requires 1000 <= n <= 9999
    ensures |Decimal(n)| == 4
  {
    var a := n / 10;
    var b := a / 10;
    assert 10 <= b < 100 && b / 10 < 10;
    assert |Decimal(b)| == 2;
    assert |Decimal(a)| == 3;
  }

  /** `str(n)` for any integer. */
  function IntStr(n: int): string {
    if n >= 0 then Decimal(n) else "-" + Decimal(-n)
  }

  /** `f"{n:02d}"`: zero-padded to two characters; negative numbers and
      numbers of three digits or more come out as `str(n)` writes them. */
  function Format02(n: int): (r: string)
    ensures 0 <= n < 100 ==>
      && |r| == 2
      && (forall k :: 0 <= k < 2 ==> IsDigit(r[k]))
      && DecimalValue(r) == n
  {
    if n < 0 then IntStr(n)
    else
      DecimalRoundTrip(n);
      if n < 10 then "0" + Decimal(n) else IntStr(n)
  }
}
