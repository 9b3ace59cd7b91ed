/** String plumbing the program relies on from Rust's standard library:
    `str::split` on one character, `join` on a slice of strings, and the decimal
    `Display` of integers. Each comes with its inverse and a round-trip lemma. */
module Text {

  /** `s.split(c)` as Rust defines it: the pieces between occurrences of `c`, so the
      empty string gives one empty piece and `k` separators give `k + 1` pieces. */
  function Split(s: string, c: char): (r: seq<string>)
    ensures |r| >= 1
    ensures forall i :: 0 <= i < |r| ==> c !in r[i]
    ensures |r| == 1 <==> c !in s
  {
    if |s| == 0 then [""]
    else if s[0] == c then [""] + Split(s[1..], c)
    else
      var t := Split(s[1..], c);
      [[s[0]] + t[0]] + t[1..]
  }

  /** `xs.join(sep)`: the pieces in order with `sep` between neighbours. */
  function Join(sep: string, xs: seq<string>): string
  {
    if |xs| == 0 then ""
    else if |xs| == 1 then xs[0]
    else xs[0] + sep + Join(sep, xs[1..])
  }

  /** Where piece `i` starts inside `Join(sep, xs)`. */
  function JoinOffset(sep: string, xs: seq<string>, i: nat): nat
    requires i <= |xs|
  {
    if i == 0 then 0 else |xs[0]| + |sep| + JoinOffset(sep, xs[1..], i - 1)
  }

  /** A string without the separator splits into itself. */
  lemma {:induction false} SplitWithoutSeparator(s: string, c: char)
    requires c !in s
    ensures Split(s, c) == [s]
  {
    if |s| > 0 {
      assert c !in s[1..];
      SplitWithoutSeparator(s[1..], c);
      assert [s[0]] + s[1..] == s;
    }
  }

  /** Splitting at one occurrence of the separator concatenates the two halves' pieces. */
  lemma {:induction false} SplitAround(a: string, b: string, c: char)
    ensures Split(a + [c] + b, c) == Split(a, c) + Split(b, c)
  {
    var s := a + [c] + b;
    if |a| == 0 {
      assert s[0] == c && s[1..] == b;
    } else {
      assert s[0] == a[0];
      assert s[1..] == a[1..] + [c] + b;
      SplitAround(a[1..], b, c);
    }
  }

  /** Three separator-free pieces written with the separator between them split back
      into those pieces. */
  lemma SplitThree(a: string, b: string, d: string, c: char)
    requires c !in a && c !in b && c !in d
    ensures Split(a + [c] + b + [c] + d, c) == [a, b, d]
  {
    assert a + [c] + b + [c] + d == a + [c] + (b + [c] + d);
    SplitAround(a, b + [c] + d, c);
    SplitAround(b, d, c);
    SplitWithoutSeparator(a, c);
    SplitWithoutSeparator(b, c);
    SplitWithoutSeparator(d, c);
  }

  /** Splitting a join recovers the pieces when none of them contains the separator. */
  lemma {:induction false} SplitJoin(xs: seq<string>, c: char)
    requires |xs| >= 1
    requires forall i :: 0 <= i < |xs| ==> c !in xs[i]
    ensures Split(Join([c], xs), c) == xs
  {
    if |xs| == 1 {
      SplitWithoutSeparator(xs[0], c);
    } else {
      SplitWithoutSeparator(xs[0], c);
      SplitJoin(xs[1..], c);
      SplitAround(xs[0], Join([c], xs[1..]), c);
      assert [xs[0]] + xs[1..] == xs;
    }
  }

  /** Joining the pieces of a split gives back the original string. */
  lemma {:induction false} JoinSplit(s: string, c: char)
    ensures Join([c], Split(s, c)) == s
  {
    if |s| == 0 {
    } else if s[0] == c {
      var t := Split(s[1..], c);
      JoinSplit(s[1..], c);
      assert ([""] + t)[1..] == t;
      assert s == [c] + s[1..];
    } else {
      var t := Split(s[1..], c);
      JoinSplit(s[1..], c);
      var r := [[s[0]] + t[0]] + t[1..];
      assert r[1..] == t[1..];
      assert s == [s[0]] + s[1..];
    }
  }

  /** A character in neither the separator nor any piece is not in the join. */
  lemma {:induction false} JoinAvoids(sep: string, xs: seq<string>, c: char)
    requires c !in sep
    requires forall i :: 0 <= i < |xs| ==> c !in xs[i]
    ensures c !in Join(sep, xs)
  {
    if |xs| > 1 {
      JoinAvoids(sep, xs[1..], c);
    }
  }

  /** A slice of the right half of a concatenation is a slice of that half. */
  lemma SliceOfRight<T>(a: seq<T>, b: seq<T>, x: nat, y: nat)
    requires x <= y <= |b|
    ensures (a + b)[|a| + x..|a| + y] == b[x..y]
  {
  }

  lemma {:induction false} JoinOffsetNext(sep: string, xs: seq<string>, i: nat)
    requires i + 1 < |xs|
    ensures JoinOffset(sep, xs, i + 1) == JoinOffset(sep, xs, i) + |xs[i]| + |sep|
  {
    if i > 0 {
      JoinOffsetNext(sep, xs[1..], i - 1);
    }
  }

  /** Piece `i` of a join sits at `JoinOffset(sep, xs, i)`. */
  lemma {:induction false} JoinPieceAt(sep: string, xs: seq<string>, i: nat)
    requires i < |xs|
    ensures JoinOffset(sep, xs, i) + |xs[i]| <= |Join(sep, xs)|
    ensures Join(sep, xs)[JoinOffset(sep, xs, i)..JoinOffset(sep, xs, i) + |xs[i]|] == xs[i]
  {
    if i == 0 {
      if |xs| > 1 {
        assert Join(sep, xs) == xs[0] + (sep + Join(sep, xs[1..]));
      }
    } else {
      var rest := Join(sep, xs[1..]);
      JoinPieceAt(sep, xs[1..], i - 1);
      assert Join(sep, xs) == (xs[0] + sep) + rest;
      var o := JoinOffset(sep, xs[1..], i - 1);
      SliceOfRight(xs[0] + sep, rest, o, o + |xs[i]|);
    }
  }

  /** The separator follows piece `i` whenever another piece comes after it. */
  lemma {:induction false} JoinSeparatorAfter(sep: string, xs: seq<string>, i: nat)
    requires i + 1 < |xs|
    ensures JoinOffset(sep, xs, i) + |xs[i]| + |sep| <= |Join(sep, xs)|
    ensures Join(sep, xs)[JoinOffset(sep, xs, i) + |xs[i]|..JoinOffset(sep, xs, i) + |xs[i]| + |sep|] == sep
  {
    var rest := Join(sep, xs[1..]);
    if i == 0 {
      assert Join(sep, xs) == xs[0] + sep + rest;
      SliceOfRight(xs[0], sep + rest, 0, |sep|);
    } else {
      JoinSeparatorAfter(sep, xs[1..], i - 1);
      assert Join(sep, xs) == (xs[0] + sep) + rest;
      var o := JoinOffset(sep, xs[1..], i - 1) + |xs[i]|;
      SliceOfRight(xs[0] + sep, rest, o, o + |sep|);
    }
  }

  /** The last piece ends the join: nothing follows it. */
  lemma {:induction false} JoinLastEnds(sep: string, xs: seq<string>)
    requires |xs| >= 1
    ensures JoinOffset(sep, xs, |xs| - 1) + |xs[|xs| - 1]| == |Join(sep, xs)|
  {
    if |xs| > 1 {
      JoinLastEnds(sep, xs[1..]);
      assert xs[1..][|xs| - 2] == xs[|xs| - 1];
    }
  }

  /** The join lists every piece, in order, each followed by the separator except the
      last, which ends the join: piece `i` starts at `JoinOffset(sep, xs, i)` and piece
      `i + 1` starts exactly one separator after piece `i` ends. */
  lemma JoinPiece(sep: string, xs: seq<string>, i: nat)
    requires i < |xs|
    ensures JoinOffset(sep, xs, i) + |xs[i]| <= |Join(sep, xs)|
    ensures Join(sep, xs)[JoinOffset(sep, xs, i)..JoinOffset(sep, xs, i) + |xs[i]|] == xs[i]
    ensures i + 1 < |xs| ==>
              && JoinOffset(sep, xs, i + 1) == JoinOffset(sep, xs, i) + |xs[i]| + |sep|
              && JoinOffset(sep, xs, i + 1) <= |Join(sep, xs)|
              && Join(sep, xs)[JoinOffset(sep, xs, i) + |xs[i]|..JoinOffset(sep, xs, i + 1)] == sep
    ensures i + 1 == |xs| ==> JoinOffset(sep, xs, i) + |xs[i]| == |Join(sep, xs)|
  {
    JoinPieceAt(sep, xs, i);
    if i + 1 == |xs| {
      JoinLastEnds(sep, xs);
    }
    if i + 1 < |xs| {
      JoinOffsetNext(sep, xs, i);
      JoinSeparatorAfter(sep, xs, i);
    }
  }

  predicate IsDigit(ch: char)
  {
    '0' <= ch <= '9'
  }

  function DigitChar(d: nat): (ch: char)
    requires d < 10
    ensures IsDigit(ch)
  {
    ('0' as int + d) as char
  }

  /** Decimal `Display` of a natural number: no sign, no leading zeros. */
  function NatToDecimal(n: nat): (r: string)
    ensures |r| >= 1
    ensures forall i :: 0 <= i < |r| ==> IsDigit(r[i])
    ensures |r| > 1 ==> r[0] != '0'
  {
    if n < 10 then [DigitChar(n)] else NatToDecimal(n / 10) + [DigitChar(n % 10)]
  }

  /** Reads a string of decimal digits back as a number (the inverse of `NatToDecimal`). */
  function DecimalValue(s: string): int
  {
    if |s| == 0 then 0 else 10 * DecimalValue(s[..|s| - 1]) + (s[|s| - 1] as int - '0' as int)
  }

  /** Decimal `Display` of a signed integer (`{}` on an `i32`): a `-` before negatives. */
  function IntToDecimal(i: int): (r: string)
    ensures |r| >= 1
    ensures r[0] == '-' <==> i < 0
    ensures i >= 0 ==> IsDigit(r[0])
    ensures forall k :: 0 < k < |r| ==> IsDigit(r[k])
  {
    if i < 0 then "-" + NatToDecimal(-i) else NatToDecimal(i)
  }

  /** A numeral holds only a sign and digits, so no other character occurs in it. */
  lemma DecimalAvoids(i: int, c: char)
    requires c != '-' && !IsDigit(c)
    ensures c !in IntToDecimal(i)
  {
    var r := IntToDecimal(i);
    forall k | 0 <= k < |r|
      ensures r[k] != c
    {
      assert k == 0 ==> r[k] == '-' || IsDigit(r[k]);
    }
  }

  /** Reads an optionally negative decimal numeral. */
  function SignedDecimalValue(s: string): int
  {
    if |s| > 0 && s[0] == '-' then -DecimalValue(s[1..]) else DecimalValue(s)
  }

  lemma {:induction false} NatDecimalRoundTrip(n: nat)
    ensures DecimalValue(NatToDecimal(n)) == n
  {
    if n >= 10 {
      var s := NatToDecimal(n);
      NatDecimalRoundTrip(n / 10);
      assert s[..|s| - 1] == NatToDecimal(n / 10);
    }
  }

  /** The printed number reads back as the number printed. */
  lemma IntDecimalRoundTrip(i: int)
    ensures SignedDecimalValue(IntToDecimal(i)) == i
  {
    if i < 0 {
      NatDecimalRoundTrip(-i);
      assert ("-" + NatToDecimal(-i))[1..] == NatToDecimal(-i);
    } else {
      NatDecimalRoundTrip(i);
    }
  }
}
