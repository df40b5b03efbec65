/** String helpers the localisation code relies on: JavaScript's
    `String.prototype.split` with a one-character separator, a literal
    replace-all (what a global regular expression built from plain text
    does), and the decimal and comma-grouped renderings of a whole number. */
module Text {

  // ---------------------------------------------------------------------------
  // Joining and splitting
  // ---------------------------------------------------------------------------

  /** The parts glued together with `sep` between neighbours. */
  function Join(parts: seq<string>, sep: string): string
    requires |parts| >= 1
    decreases |parts|
  {
    if |parts| == 1 then parts[0] else parts[0] + sep + Join(parts[1..], sep)
  }

  /** `s.split(sep)`: the maximal runs between separators, in order. An empty
      string gives one empty part; adjacent, leading or trailing separators
      give empty parts. */
  function Split(s: string, sep: char): (parts: seq<string>)
    ensures |parts| >= 1
    ensures forall i :: 0 <= i < |parts| ==> sep !in parts[i]
    ensures Join(parts, [sep]) == s
    decreases |s|
  {
    if s == [] then [[]]
    else
      var rest := Split(s[1..], sep);
      if s[0] == sep then [[]] + rest
      else
        var parts := [[s[0]] + rest[0]] + rest[1..];
        assert |rest| > 1 ==> parts[1..] == rest[1..];
        parts
  }

  lemma {:induction false} SplitNoSeparator(p: string, sep: char)
    requires sep !in p
    ensures Split(p, sep) == [p]
    decreases |p|
  {
    if p != [] {
      SplitNoSeparator(p[1..], sep);
    }
  }

  lemma {:induction false} SplitAfterPart(p: string, sep: char, t: string)
    requires sep !in p
    ensures Split(p + [sep] + t, sep) == [p] + Split(t, sep)
    decreases |p|
  {
    var s := p + [sep] + t;
    if p == [] {
      assert s[1..] == t;
    } else {
      assert s[1..] == p[1..] + [sep] + t;
      SplitAfterPart(p[1..], sep, t);
      assert [s[0]] + p[1..] == p;
    }
  }

  /** Splitting undoes joining: parts free of the separator come back
      exactly, so a dotted key built from segments walks those segments. */
  lemma {:induction false} SplitJoin(parts: seq<string>, sep: char)
    requires |parts| >= 1
    requires forall i :: 0 <= i < |parts| ==> sep !in parts[i]
    ensures Split(Join(parts, [sep]), sep) == parts
    decreases |parts|
  {
    if |parts| == 1 {
      SplitNoSeparator(parts[0], sep);
    } else {
      SplitJoin(parts[1..], sep);
      SplitAfterPart(parts[0], sep, Join(parts[1..], [sep]));
      assert parts == [parts[0]] + parts[1..];
    }
  }

  // ---------------------------------------------------------------------------
  // Literal replace-all
  // ---------------------------------------------------------------------------

  predicate OccursAt(s: string, pat: string, i: int)
  {
    0 <= i && i + |pat| <= |s| && s[i..i + |pat|] == pat
  }

  /** `pat` occurs somewhere in `s`. */
  ghost predicate Occurs(s: string, pat: string)
  {
    exists i :: OccursAt(s, pat, i)
  }

  /** A `{name}` placeholder whose name holds no `{`: an occurrence of it
      can never start inside the text before another occurrence and run
      into it. */
  predicate IsPlaceholder(pat: string)
  {
    |pat| >= 2 && pat[0] == '{' && '{' !in pat[1..]
  }

  /** `s.replace(/pat/g, rep)` for a pattern of plain text: scans left to
      right and replaces each non-overlapping occurrence; the inserted text
      is never scanned again. */
  function ReplaceAll(s: string, pat: string, rep: string): string
    requires |pat| > 0
    decreases |s|
  {
    if |s| < |pat| then s
    else if s[..|pat|] == pat then rep + ReplaceAll(s[|pat|..], pat, rep)
    else [s[0]] + ReplaceAll(s[1..], pat, rep)
  }

  /** Text without the pattern passes through unchanged. */
  lemma {:induction false} ReplaceAllAbsent(s: string, pat: string, rep: string)
    requires |pat| > 0
    requires !Occurs(s, pat)
    ensures ReplaceAll(s, pat, rep) == s
    decreases |s|
  {
    if |s| >= |pat| {
      assert !OccursAt(s, pat, 0);
      OccursInTail(s, pat);
      ReplaceAllAbsent(s[1..], pat, rep);
    }
  }

  /** Replacing a pattern by itself changes nothing. */
  lemma {:induction false} ReplaceAllSame(s: string, pat: string)
    requires |pat| > 0
    ensures ReplaceAll(s, pat, pat) == s
    decreases |s|
  {
    if |s| >= |pat| {
      if s[..|pat|] == pat {
        ReplaceAllSame(s[|pat|..], pat);
        assert s == s[..|pat|] + s[|pat|..];
      } else {
        ReplaceAllSame(s[1..], pat);
        assert s == [s[0]] + s[1..];
      }
    }
  }

  /** An occurrence in the tail of a string is one in the string. */
  lemma OccursInTail(s: string, pat: string)
    requires |s| >= 1 && !Occurs(s, pat)
    ensures !Occurs(s[1..], pat)
  {
    forall i | OccursAt(s[1..], pat, i) ensures OccursAt(s, pat, i + 1) {
      assert s[1..][i..i + |pat|] == s[i + 1..i + 1 + |pat|];
    }
  }

  /** Placeholder-free, non-empty text followed by the placeholder does not
      start with the placeholder. */
  lemma NoPlaceholderAtStart(a: string, pat: string, b: string)
    requires IsPlaceholder(pat) && a != [] && !Occurs(a, pat)
    ensures (a + pat + b)[..|pat|] != pat
  {
    var s := a + pat + b;
    if |a| >= |pat| {
      assert s[..|pat|] == a[0..|pat|];
      assert !OccursAt(a, pat, 0);
    } else {
      assert s[..|pat|][|a|] == '{';
      assert pat[|a|] == pat[1..][|a| - 1];
    }
  }

  /** Text free of a placeholder, then the placeholder: the text is kept,
      the placeholder becomes `rep`, and scanning resumes after it. */
  lemma {:induction false} ReplaceAllLeading(a: string, pat: string, rep: string, b: string)
    requires IsPlaceholder(pat)
    requires !Occurs(a, pat)
    ensures ReplaceAll(a + pat + b, pat, rep) == a + rep + ReplaceAll(b, pat, rep)
    decreases |a|
  {
    var s := a + pat + b;
    if a == [] {
      assert s[..|pat|] == pat && s[|pat|..] == b;
    } else {
      NoPlaceholderAtStart(a, pat, b);
      OccursInTail(a, pat);
      var tail := a[1..] + pat + b;
      assert s[1..] == tail;
      calc {
        ReplaceAll(s, pat, rep);
        [s[0]] + ReplaceAll(tail, pat, rep);
        { ReplaceAllLeading(a[1..], pat, rep, b); }
        [a[0]] + (a[1..] + rep + ReplaceAll(b, pat, rep));
        { assert [a[0]] + a[1..] == a; }
        a + rep + ReplaceAll(b, pat, rep);
      }
    }
  }

  /** Every occurrence is replaced: a template made of placeholder-free
      pieces separated by the placeholder becomes the same pieces separated
      by the replacement. Any string has such a decomposition, so this
      describes the result of `ReplaceAll` completely. */
  lemma {:induction false} ReplaceAllJoin(parts: seq<string>, pat: string, rep: string)
    requires |parts| >= 1
    requires IsPlaceholder(pat)
    requires forall i :: 0 <= i < |parts| ==> !Occurs(parts[i], pat)
    ensures ReplaceAll(Join(parts, pat), pat, rep) == Join(parts, rep)
    decreases |parts|
  {
    if |parts| == 1 {
      ReplaceAllAbsent(parts[0], pat, rep);
    } else {
      ReplaceAllLeading(parts[0], pat, rep, Join(parts[1..], pat));
      ReplaceAllJoin(parts[1..], pat, rep);
    }
  }

  // ---------------------------------------------------------------------------
  // Decimal numerals
  // ---------------------------------------------------------------------------

  predicate IsDigit(c: char)
  {
    '0' <= c <= '9'
  }

  predicate AllDigits(s: string)
  {
    forall i :: 0 <= i < |s| ==> IsDigit(s[i])
  }

  function DigitChar(d: nat): (c: char)
    requires d < 10
    ensures IsDigit(c)
  {
    ('0' as int + d) as char
  }

  function DigitValue(c: char): (d: nat)
    requires IsDigit(c)
    ensures d < 10
  {
    c as int - '0' as int
  }

  /** `${n}` for a whole number: its shortest decimal numeral. */
  function Decimal(n: nat): (s: string)
    ensures |s| >= 1 && AllDigits(s)
    ensures |s| > 1 ==> s[0] != '0'
    decreases n
  {
    if n < 10 then [DigitChar(n)] else Decimal(n / 10) + [DigitChar(n % 10)]
  }

  /** The value a numeral of digits denotes (`parseInt(s, 10)`). */
  function DecimalValue(s: string): nat
    requires AllDigits(s)
    decreases |s|
  {
    if s == [] then 0 else DecimalValue(s[..|s| - 1]) * 10 + DigitValue(s[|s| - 1])
  }

  /** Reading the numeral back gives the number: no two numbers share one. */
  lemma {:induction false} DecimalRoundTrip(n: nat)
    ensures DecimalValue(Decimal(n)) == n
    decreases n
  {
    var s := Decimal(n);
    if n >= 10 {
      DecimalRoundTrip(n / 10);
      assert s[..|s| - 1] == Decimal(n / 10);
    }
  }

  // ---------------------------------------------------------------------------
  // Comma grouping
  // ---------------------------------------------------------------------------

  /** The three digits of `r`, with leading zeros. */
  function Pad3(r: nat): (s: string)
    requires r < 1000
    ensures |s| == 3 && AllDigits(s)
  {
    [DigitChar(r / 100), DigitChar(r / 10 % 10), DigitChar(r % 10)]
  }

  /** `n.toLocaleString()` with comma grouping in threes. */
  function Grouped(n: nat): (s: string)
    ensures |s| >= 1 && IsDigit(s[0])
    decreases n
  {
    if n < 1000 then Decimal(n) else Grouped(n / 1000) + "," + Pad3(n % 1000)
  }

  /** The string with every comma dropped. */
  function WithoutCommas(s: string): string
    decreases |s|
  {
    if s == [] then []
    else WithoutCommas(s[..|s| - 1]) + (if s[|s| - 1] == ',' then [] else [s[|s| - 1]])
  }

  lemma {:induction false} WithoutCommasAppend(a: string, b: string)
    ensures WithoutCommas(a + b) == WithoutCommas(a) + WithoutCommas(b)
    decreases |b|
  {
    if b != [] {
      var c := b[|b| - 1];
      var tail := if c == ',' then [] else [c];
      WithoutCommasAppend(a, b[..|b| - 1]);
      assert (a + b)[..|a + b| - 1] == a + b[..|b| - 1];
      assert WithoutCommas(a + b) == WithoutCommas(a + b[..|b| - 1]) + tail;
      assert WithoutCommas(b) == WithoutCommas(b[..|b| - 1]) + tail;
    } else {
      assert a + b == a;
    }
  }

  lemma WithoutCommasDigits(s: string)
    requires AllDigits(s)
    ensures WithoutCommas(s) == s
    decreases |s|
  {
    if s != [] {
      WithoutCommasDigits(s[..|s| - 1]);
    }
  }

  lemma WithoutCommasGroup(g: string, tail: string)
    requires AllDigits(tail)
    ensures WithoutCommas(g + "," + tail) == WithoutCommas(g) + tail
  {
    var gc := g + [','];
    assert gc[..|gc| - 1] == g;
    assert WithoutCommas(gc) == WithoutCommas(g);
    WithoutCommasAppend(gc, tail);
    WithoutCommasDigits(tail);
  }

  /** A number of at least a thousand is the numeral of its thousands
      followed by its last three digits. */
  lemma DecimalThousands(q: nat, r: nat)
    requires q >= 1 && r < 1000
    ensures Decimal(q * 1000 + r) == Decimal(q) + Pad3(r)
  {
    var n := q * 1000 + r;
    var n1, n2 := q * 100 + r / 10, q * 10 + r / 100;
    assert n / 10 == n1 && n % 10 == r % 10;
    assert n1 / 10 == n2 && n1 % 10 == r / 10 % 10;
    assert n2 / 10 == q && n2 % 10 == r / 100;
    assert Decimal(n) == Decimal(n1) + [DigitChar(r % 10)];
    assert Decimal(n1) == Decimal(n2) + [DigitChar(r / 10 % 10)];
    assert Decimal(n2) == Decimal(q) + [DigitChar(r / 100)];
  }

  /** Grouping only inserts commas: without them it is the plain numeral. */
  lemma {:induction false} GroupedDigits(n: nat)
    ensures WithoutCommas(Grouped(n)) == Decimal(n)
    decreases n
  {
    if n < 1000 {
      WithoutCommasDigits(Decimal(n));
    } else {
      var q, r := n / 1000, n % 1000;
      GroupedDigits(q);
      WithoutCommasGroup(Grouped(q), Pad3(r));
      DecimalThousands(q, r);
      assert n == q * 1000 + r;
    }
  }

  /** Commas exactly at the group boundaries: counting from the right,
      every fourth character is a comma, and all the others are digits.
      The length is never a multiple of four, so the leading group has one
      to three digits and the first character is never a comma. */
  predicate CommasInThrees(s: string)
  {
    |s| % 4 != 0 &&
    forall i :: 0 <= i < |s| ==>
      (s[i] == ',' <==> 0 < i && (|s| - i) % 4 == 0) && (s[i] != ',' ==> IsDigit(s[i]))
  }

  lemma {:induction false} SmallDecimalLength(n: nat)
    requires n < 1000
    ensures |Decimal(n)| <= 3
  {
    if n >= 10 {
      SmallDecimalLength(n / 10);
    }
  }

  /** Appending a comma and three digits to a well-grouped numeral keeps
      it well grouped. */
  lemma CommasInThreesAppend(g: string, tail: string)
    requires |g| >= 1 && CommasInThrees(g)
    requires |tail| == 3 && AllDigits(tail)
    ensures CommasInThrees(g + "," + tail)
  {
    var s := g + "," + tail;
    assert |s| % 4 == |g| % 4;
    forall i | 0 <= i < |s|
      ensures (s[i] == ',' <==> 0 < i && (|s| - i) % 4 == 0) && (s[i] != ',' ==> IsDigit(s[i]))
    {
      if i < |g| {
        assert s[i] == g[i];
        assert (|s| - i) % 4 == (|g| - i) % 4;
      } else if i > |g| {
        assert s[i] == tail[i - |g| - 1];
      }
    }
  }

  /** `toLocaleString` puts a comma between every group of three digits
      counted from the right, and nowhere else. */
  lemma {:induction false} GroupedCommas(n: nat)
    ensures CommasInThrees(Grouped(n))
    decreases n
  {
    if n < 1000 {
      SmallDecimalLength(n);
    } else {
      GroupedCommas(n / 1000);
      CommasInThreesAppend(Grouped(n / 1000), Pad3(n % 1000));
    }
  }

  /** A well-grouped string of at most three characters is all digits. */
  lemma ShortCommasInThrees(s: string)
    requires CommasInThrees(s) && |s| <= 3
    ensures WithoutCommas(s) == s
  {
    assert AllDigits(s) by {
      forall i | 0 <= i < |s| ensures IsDigit(s[i]) {
        assert s[i] != ',';
      }
    }
    WithoutCommasDigits(s);
  }

  /** A longer well-grouped string is a shorter one, a comma and three
      digits. */
  lemma LongCommasInThrees(s: string) returns (g: string, tail: string)
    requires CommasInThrees(s) && |s| > 3
    ensures s == g + "," + tail && |tail| == 3 && AllDigits(tail)
    ensures CommasInThrees(g) && |g| >= 1
    ensures |WithoutCommas(s)| > 3 && WithoutCommas(s) == WithoutCommas(g) + tail
  {
    g, tail := s[..|s| - 4], s[|s| - 3..];
    assert s[|s| - 4] == ',';
    assert s == g + "," + tail;
    assert AllDigits(tail) by {
      forall i | 0 <= i < 3 ensures IsDigit(tail[i]) {
        assert tail[i] == s[|s| - 3 + i];
      }
    }
    assert CommasInThrees(g) by {
      assert |g| % 4 == |s| % 4;
      forall i | 0 <= i < |g|
        ensures (g[i] == ',' <==> 0 < i && (|g| - i) % 4 == 0) && (g[i] != ',' ==> IsDigit(g[i]))
      {
        assert g[i] == s[i];
        assert (|s| - i) % 4 == (|g| - i) % 4;
      }
    }
    WithoutCommasGroup(g, tail);
    assert g == [g[0]] + g[1..];
    WithoutCommasAppend([g[0]], g[1..]);
    assert WithoutCommas([g[0]]) == [g[0]] by {
      assert [g[0]][..0] == [];
    }
  }

  /** Two well-grouped strings with the same digits are the same string:
      where the commas go is fixed by the digits alone. */
  lemma {:induction false} CommasInThreesUnique(s: string, t: string)
    requires CommasInThrees(s) && CommasInThrees(t)
    requires WithoutCommas(s) == WithoutCommas(t)
    ensures s == t
    decreases |s|
  {
    if |s| <= 3 {
      ShortCommasInThrees(s);
      if |t| > 3 {
        var _, _ := LongCommasInThrees(t);
      } else {
        ShortCommasInThrees(t);
      }
    } else {
      var g, x := LongCommasInThrees(s);
      if |t| <= 3 {
        ShortCommasInThrees(t);
      } else {
        var h, y := LongCommasInThrees(t);
        assert x == WithoutCommas(s)[|WithoutCommas(s)| - 3..] == y;
        assert WithoutCommas(g) == WithoutCommas(s)[..|WithoutCommas(s)| - 3] == WithoutCommas(h);
        CommasInThreesUnique(g, h);
      }
    }
  }

  /** `Grouped(n)` is the only string of digits and commas in threes whose
      digits are the numeral of `n`. */
  lemma GroupedUnique(n: nat, s: string)
    requires CommasInThrees(s) && WithoutCommas(s) == Decimal(n)
    ensures s == Grouped(n)
  {
    GroupedCommas(n);
    GroupedDigits(n);
    CommasInThreesUnique(s, Grouped(n));
  }

  /** Below a thousand there is nothing to group. */
  lemma SmallGroupedIsDecimal(n: nat)
    requires n < 1000
    ensures Grouped(n) == Decimal(n)
  {
  }
}
