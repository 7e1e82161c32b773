/** Character-level helpers shared by the timestamp formatter, the directive
    translator and the command-line parser: decimal digits, zero padding and
    splitting on a single separator character. */
module Text {

  function Pow10(k: nat): (r: nat)
    ensures r >= 1
  {
    if k == 0 then 1 else 10 * Pow10(k - 1)
  }

  predicate IsDigit(c: char) {
    '0' <= c <= '9'
  }

  predicate AllDigits(s: string) {
    forall i :: 0 <= i < |s| ==> IsDigit(s[i])
  }

  function DigitChar(d: nat): (c: char)
    requires d < 10
    ensures IsDigit(c)
  {
    ('0' as int + d) as char
  }

  function DigitValue(c: char): (d: nat)
    requires IsDigit(c)
    ensures d < 10
  {
    c as int - '0' as int
  }

  /** The number a string of decimal digits denotes, most significant first. */
  function Value(s: string): nat
    requires AllDigits(s)
  {
    if s == [] then 0 else 10 * Value(s[..|s| - 1]) + DigitValue(s[|s| - 1])
  }

  /** The low `w` decimal digits of `n`, zero-padded on the left (as `%02d`, `%06d`). */
  function Pad(n: nat, w: nat): (r: string)
    ensures |r| == w
    ensures AllDigits(r)
  {
    if w == 0 then [] else Pad(n / 10, w - 1) + [DigitChar(n % 10)]
  }

  /** Decimal text of `n` without leading zeros (as `str(n)`). */
  function Decimal(n: nat): (r: string)
    ensures |r| >= 1
    ensures AllDigits(r)
  {
    if n < 10 then [DigitChar(n)] else Decimal(n / 10) + [DigitChar(n % 10)]
  }

  lemma DigitRoundTrip(d: nat)
    requires d < 10
    ensures DigitValue(DigitChar(d)) == d
  {
  }

  lemma {:induction false} PadValue(n: nat, w: nat)
    requires n < Pow10(w)
    ensures Value(Pad(n, w)) == n
  {
    if w > 0 {
      var p := Pad(n, w);
      assert p[..w - 1] == Pad(n / 10, w - 1);
      assert n / 10 < Pow10(w - 1);
      PadValue(n / 10, w - 1);
      DigitRoundTrip(n % 10);
    }
  }

  lemma {:induction false} DecimalValue(n: nat)
    ensures Value(Decimal(n)) == n
  {
    var d := Decimal(n);
    if n < 10 {
      DigitRoundTrip(n);
      assert d[..0] == [];
    } else {
      assert d[..|d| - 1] == Decimal(n / 10);
      DecimalValue(n / 10);
      DigitRoundTrip(n % 10);
    }
  }

  /** `n` with its last `k` decimal digits dropped. */
  function DropDigits(n: nat, k: nat): (r: nat)
    ensures r <= n
  {
    if k == 0 then n else DropDigits(n / 10, k - 1)
  }

  lemma PadStep(n: nat, w: nat)
    requires w > 0
    ensures Pad(n, w)[..w - 1] == Pad(n / 10, w - 1)
  {
  }

  /** Cutting the last `b` characters off an `a + b` digit padding is the same
      as padding the number with its last `b` digits dropped: truncation, not
      rounding. */
  lemma {:induction false} PadPrefix(n: nat, a: nat, b: nat)
    ensures Pad(n, a + b)[..a] == Pad(DropDigits(n, b), a)
  {
    if b > 0 {
      var p := Pad(n, a + b);
      PadStep(n, a + b);
      assert p[..a] == p[..a + b - 1][..a];
      PadPrefix(n / 10, a, b - 1);
    }
  }

  /** Number of occurrences of `c` in `s`. */
  function Occurrences(s: string, c: char): nat
  {
    if s == [] then 0 else (if s[0] == c then 1 else 0) + Occurrences(s[1..], c)
  }

  /** `sep.join(pieces)`. */
  function Join(pieces: seq<string>, sep: char): string
    requires |pieces| >= 1
  {
    if |pieces| == 1 then pieces[0] else pieces[0] + [sep] + Join(pieces[1..], sep)
  }

  /** `s.split(sep)` for a one-character separator: every occurrence separates,
      so adjacent separators yield empty pieces and `""` yields `[""]`. */
  function Split(s: string, sep: char): (r: seq<string>)
    ensures |r| >= 1
    decreases |s|
  {
    if s == [] then [[]]
    else
      var rest := Split(s[1..], sep);
      if s[0] == sep then [[]] + rest
      else [[s[0]] + rest[0]] + rest[1..]
  }

  /** No piece holds the separator. */
  lemma {:induction false} SplitFree(s: string, sep: char)
    ensures forall i :: 0 <= i < |Split(s, sep)| ==> sep !in Split(s, sep)[i]
    decreases |s|
  {
    if s != [] {
      SplitFree(s[1..], sep);
      var rest := Split(s[1..], sep);
      var r := Split(s, sep);
      if s[0] == sep {
        assert forall i :: 1 <= i < |r| ==> r[i] == rest[i - 1];
      } else {
        assert forall i :: 1 <= i < |r| ==> r[i] == rest[i];
      }
    }
  }

  /** Joining the pieces with the separator gives back the string, and there
      is one piece more than there are separators. */
  lemma {:induction false} SplitJoinInverse(s: string, sep: char)
    ensures Join(Split(s, sep), sep) == s
    ensures |Split(s, sep)| == Occurrences(s, sep) + 1
    decreases |s|
  {
    if s != [] {
      SplitJoinInverse(s[1..], sep);
      var rest := Split(s[1..], sep);
      assert s == [s[0]] + s[1..];
      if s[0] == sep {
        assert ([[]] + rest)[1..] == rest;
      } else {
        var r := [[s[0]] + rest[0]] + rest[1..];
        assert r[1..] == rest[1..];
      }
    }
  }

  lemma {:induction false} OccurrencesZero(s: string, c: char)
    ensures Occurrences(s, c) == 0 <==> c !in s
  {
    if s != [] {
      OccurrencesZero(s[1..], c);
      assert s == [s[0]] + s[1..];
    }
  }

  /** A string without the separator is a single piece. */
  lemma {:induction false} SplitNoSeparator(s: string, sep: char)
    requires sep !in s
    ensures Split(s, sep) == [s]
    decreases |s|
  {
    if s != [] {
      SplitNoSeparator(s[1..], sep);
      assert s == [s[0]] + s[1..];
    }
  }

  /** A string splits into one piece exactly when it holds no separator. */
  lemma SplitSingle(s: string, sep: char)
    ensures |Split(s, sep)| == 1 <==> sep !in s
  {
    SplitJoinInverse(s, sep);
    OccurrencesZero(s, sep);
  }

  /** Splitting a piece free of the separator off the front of a string. */
  lemma {:induction false} SplitPrefix(a: string, sep: char, t: string)
    requires sep !in a
    ensures Split(a + t, sep) == [a + Split(t, sep)[0]] + Split(t, sep)[1..]
    decreases |a|
  {
    if a != [] {
      var st := Split(t, sep);
      assert (a + t)[1..] == a[1..] + t;
      assert (a + t)[0] == a[0] != sep;
      SplitPrefix(a[1..], sep, t);
      var rest := Split(a[1..] + t, sep);
      assert rest == [a[1..] + st[0]] + st[1..];
      assert rest[0] == a[1..] + st[0] && rest[1..] == st[1..];
      assert Split(a + t, sep) == [[a[0]] + rest[0]] + rest[1..];
      assert [a[0]] + (a[1..] + st[0]) == a + st[0];
    } else {
      var st := Split(t, sep);
      assert a + t == t;
      assert st == [st[0]] + st[1..];
      assert a + st[0] == st[0];
    }
  }

  lemma SplitLeadingSeparator(b: string, sep: char)
    ensures Split([sep] + b, sep) == [[]] + Split(b, sep)
  {
    assert ([sep] + b)[1..] == b;
  }

  lemma JoinCons(pieces: seq<string>, sep: char)
    requires |pieces| >= 2
    ensures Join(pieces, sep) == pieces[0] + ([sep] + Join(pieces[1..], sep))
  {
  }

  /** Splitting undoes joining pieces that are free of the separator. */
  lemma {:induction false} SplitJoin(pieces: seq<string>, sep: char)
    requires |pieces| >= 1
    requires forall i :: 0 <= i < |pieces| ==> sep !in pieces[i]
    ensures Split(Join(pieces, sep), sep) == pieces
  {
    if |pieces| == 1 {
      SplitNoSeparator(pieces[0], sep);
    } else {
      var rest := pieces[1..];
      assert forall i :: 0 <= i < |rest| ==> rest[i] == pieces[i + 1];
      SplitJoin(rest, sep);
      var t := [sep] + Join(rest, sep);
      SplitLeadingSeparator(Join(rest, sep), sep);
      var st := Split(t, sep);
      assert st == [[]] + rest;
      SplitPrefix(pieces[0], sep, t);
      JoinCons(pieces, sep);
      assert Split(Join(pieces, sep), sep) == [pieces[0] + st[0]] + st[1..];
      assert st[0] == [] && st[1..] == rest;
      assert pieces[0] + st[0] == pieces[0];
      assert pieces == [pieces[0]] + rest;
    }
  }

  /** A string splits into exactly the two pieces `a` and `b` if and only if
      it is `a`, one separator, then `b`, with no other separator. */
  lemma SplitTwo(s: string, sep: char, a: string, b: string)
    ensures Split(s, sep) == [a, b] <==> s == a + [sep] + b && sep !in a && sep !in b
  {
    if s == a + [sep] + b && sep !in a && sep !in b {
      SplitJoin([a, b], sep);
      assert Join([a, b], sep) == a + [sep] + b;
    }
    if Split(s, sep) == [a, b] {
      SplitJoinInverse(s, sep);
      SplitFree(s, sep);
      assert Join([a, b], sep) == a + [sep] + Join([b], sep);
    }
  }
}
