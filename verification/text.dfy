/** The string primitives of Go's standard library that the forwarder uses:
    `strings.Split` with a one-character separator, `strings.Contains`, and
    `%d` formatting of a non-negative integer. Each comes with an independent
    characterisation (join, occurrence index, parse) and the lemma linking
    the two. */
module Text {

  /** Number of occurrences of `c` in `s`. */
  function Count(s: string, c: char): (n: nat)
    ensures n <= |s|
    ensures n == 0 <==> c !in s
  {
    if |s| == 0 then 0 else (if s[0] == c then 1 else 0) + Count(s[1..], c)
  }

  /** Index of the first `c` in `s`, or `|s|` when there is none. */
  function IndexOf(s: string, c: char): (k: nat)
    ensures k <= |s|
    ensures c !in s[..k]
    ensures k < |s| ==> s[k] == c
    ensures k == |s| <==> c !in s
  {
    if |s| == 0 then 0
    else if s[0] == c then 0
    else
      var k := 1 + IndexOf(s[1..], c);
      assert s[..k] == [s[0]] + s[1..][..k - 1];
      k
  }

  /** `strings.Split(s, string(sep))`: the maximal pieces of `s` between
      separators. An empty `s` gives one empty piece. */
  function Split(s: string, sep: char): (parts: seq<string>)
    ensures |parts| == Count(s, sep) + 1
    ensures forall i :: 0 <= i < |parts| ==> sep !in parts[i]
    decreases |s|
  {
    if |s| == 0 then [""]
    else
      var rest := Split(s[1..], sep);
      if s[0] == sep then [""] + rest
      else [[s[0]] + rest[0]] + rest[1..]
  }

  /** `strings.Join(parts, string(sep))`, the inverse of `Split`. */
  function Join(parts: seq<string>, sep: char): string
  {
    if |parts| == 0 then ""
    else if |parts| == 1 then parts[0]
    else parts[0] + [sep] + Join(parts[1..], sep)
  }

  /** Splitting loses nothing: joining the pieces back gives the input. */
  lemma {:induction false} JoinSplit(s: string, sep: char)
    ensures Join(Split(s, sep), sep) == s
    decreases |s|
  {
    if |s| > 0 {
      var rest := Split(s[1..], sep);
      JoinSplit(s[1..], sep);
      if s[0] == sep {
        assert ([""] + rest)[1..] == rest;
        assert s == [sep] + s[1..];
      } else {
        var parts := [[s[0]] + rest[0]] + rest[1..];
        assert parts[1..] == rest[1..];
        if |rest| == 1 {
          assert s == [s[0]] + rest[0];
        } else {
          assert Join(rest, sep) == rest[0] + [sep] + Join(rest[1..], sep);
          assert s == [s[0]] + s[1..];
        }
      }
    }
  }

  /** The first piece is everything before the first separator, and the
      remaining pieces are the split of everything after it. */
  lemma {:induction false} SplitAtFirst(s: string, sep: char)
    ensures Split(s, sep)[0] == s[..IndexOf(s, sep)]
    ensures IndexOf(s, sep) < |s| ==>
              Split(s, sep)[1..] == Split(s[IndexOf(s, sep) + 1..], sep)
    decreases |s|
  {
    if |s| > 0 && s[0] != sep {
      SplitAtFirst(s[1..], sep);
      var k := IndexOf(s[1..], sep);
      assert s[..k + 1] == [s[0]] + s[1..][..k];
      if k < |s[1..]| {
        assert s[k + 2..] == s[1..][k + 1..];
      }
    }
  }

  /** A string with exactly one separator splits into the text before it and
      the text after it, and into two pieces only in that case. */
  lemma SplitInTwo(s: string, sep: char)
    ensures |Split(s, sep)| == 2 <==> Count(s, sep) == 1
    ensures Count(s, sep) == 1 ==>
              var k := IndexOf(s, sep);
              k < |s| && Split(s, sep) == [s[..k], s[k + 1..]]
  {
    if Count(s, sep) == 1 {
      var k := IndexOf(s, sep);
      SplitAtFirst(s, sep);
      var tail := s[k + 1..];
      assert |Split(tail, sep)| == 1;
      assert Count(tail, sep) == 0;
      SplitAtFirst(tail, sep);
      assert IndexOf(tail, sep) == |tail|;
      assert tail[..|tail|] == tail;
      assert Split(tail, sep) == [tail];
      assert Split(s, sep) == [Split(s, sep)[0]] + Split(s, sep)[1..];
    }
  }

  /** `prefix` is a prefix of `s`. */
  predicate StartsWith(s: string, prefix: string)
  {
    |prefix| <= |s| && s[..|prefix|] == prefix
  }

  /** `strings.Contains(s, needle)`, scanning from the left. */
  predicate Contains(s: string, needle: string)
    decreases |s|
  {
    StartsWith(s, needle) || (|s| > 0 && Contains(s[1..], needle))
  }

  /** `needle` occurs in `s` starting at position `i`. */
  predicate OccursAt(s: string, needle: string, i: nat)
  {
    i + |needle| <= |s| && s[i..i + |needle|] == needle
  }

  /** The scan finds the needle exactly when it occurs at some position. */
  lemma {:induction false} ContainsOccurs(s: string, needle: string)
    ensures Contains(s, needle) <==> exists i: nat :: OccursAt(s, needle, i)
    decreases |s|
  {
    if StartsWith(s, needle) {
      assert OccursAt(s, needle, 0);
    } else if |s| > 0 {
      ContainsOccurs(s[1..], needle);
      if i: nat :| OccursAt(s[1..], needle, i) {
        assert s[i + 1..i + 1 + |needle|] == s[1..][i..i + |needle|];
        assert OccursAt(s, needle, i + 1);
      }
      if i: nat :| OccursAt(s, needle, i) {
        assert i != 0;
        assert s[1..][i - 1..i - 1 + |needle|] == s[i..i + |needle|];
        assert OccursAt(s[1..], needle, i - 1);
      }
    } else {
      assert forall i: nat :: !OccursAt(s, needle, i);
    }
  }

  /** A needle whose first character does not occur in `s` is not in `s`. */
  lemma {:induction false} ContainsNeedsHead(s: string, needle: string)
    requires |needle| > 0 && needle[0] !in s
    ensures !Contains(s, needle)
    decreases |s|
  {
    if |s| > 0 {
      assert forall c :: c in s[1..] ==> c in s;
      ContainsNeedsHead(s[1..], needle);
    }
  }

  /** The decimal digit for `d`. */
  function Digit(d: nat): char
    requires d < 10
  {
    ('0' as int + d) as char
  }

  predicate IsDigit(c: char)
  {
    '0' <= c <= '9'
  }

  predicate AllDigits(s: string)
  {
    forall i :: 0 <= i < |s| ==> IsDigit(s[i])
  }

  /** `fmt.Sprintf("%d", n)` for a non-negative `n`: at least one digit and no
      leading zero. */
  function Decimal(n: nat): (s: string)
    ensures |s| >= 1
    ensures AllDigits(s)
    ensures s[0] == '0' <==> n == 0
    ensures n < 10 <==> |s| == 1
    decreases n
  {
    if n < 10 then [Digit(n)] else Decimal(n / 10) + [Digit(n % 10)]
  }

  /** The value of a digit string, most significant digit first. */
  function ParseDecimal(s: string): nat
    requires AllDigits(s)
    decreases |s|
  {
    if |s| == 0 then 0
    else ParseDecimal(s[..|s| - 1]) * 10 + (s[|s| - 1] as int - '0' as int)
  }

  /** Formatting loses nothing: parsing the digits gives the number back. */
  lemma {:induction false} ParseDecimalOfDecimal(n: nat)
    ensures ParseDecimal(Decimal(n)) == n
    decreases n
  {
    if n >= 10 {
      var s := Decimal(n);
      assert s[..|s| - 1] == Decimal(n / 10);
      ParseDecimalOfDecimal(n / 10);
    }
  }
}
