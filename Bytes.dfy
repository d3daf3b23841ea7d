/**
 * Byte strings as the journal check handles them: the raw journal output,
 * its newline-separated lines, substring search, and the decimal rendering
 * of integers that `format!` performs.
 */
module Bytes {
  import opened Wrappers

  newtype byte = x: int | 0 <= x < 256

  type Bytes = seq<byte>

  /** The line separator `\n`. */
  const NL: byte := 10

  /**
   * The low byte of each character. For the ASCII text the check writes
   * this is its UTF-8 encoding.
   */
  function Ascii(s: string): (b: Bytes)
    ensures |b| == |s|
    ensures forall i :: 0 <= i < |s| ==> b[i] as int == s[i] as int % 256
  {
    seq(|s|, i requires 0 <= i < |s| => (s[i] as int % 256) as byte)
  }

  /** Encoding is compositional. */
  lemma AsciiConcat(a: string, b: string)
    ensures Ascii(a + b) == Ascii(a) + Ascii(b)
  {
    assert forall i :: 0 <= i < |a + b| ==> (a + b)[i] == if i < |a| then a[i] else b[i - |a|];
  }

  predicate StartsWith<T(==)>(s: seq<T>, prefix: seq<T>) {
    |prefix| <= |s| && s[..|prefix|] == prefix
  }

  // ---------------------------------------------------------------------------
  // Splitting on '\n' (the slice method `split(|&c| c == b'\n')`)
  // ---------------------------------------------------------------------------

  /**
   * The segments between newlines, in order. Like the slice method it is
   * modelled on, an empty input yields one empty segment and a trailing
   * newline yields a trailing empty segment.
   */
  function Split(s: Bytes): (r: seq<Bytes>)
    ensures |r| >= 1
    ensures forall k :: 0 <= k < |r| ==> NL !in r[k]
    decreases |s|
  {
    if s == [] then [[]]
    else
      var rest := Split(s[1..]);
      if s[0] == NL then [[]] + rest
      else [[s[0]] + rest[0]] + rest[1..]
  }

  /** The segments put back together with a newline between each two. */
  function Join(ls: seq<Bytes>): Bytes
    requires |ls| >= 1
    decreases |ls|
  {
    if |ls| == 1 then ls[0] else ls[0] + [NL] + Join(ls[1..])
  }

  predicate NewlineFree(ls: seq<Bytes>) {
    forall k :: 0 <= k < |ls| ==> NL !in ls[k]
  }

  /** Splitting loses nothing: joining the segments gives the input back. */
  lemma {:induction false} JoinSplit(s: Bytes)
    ensures Join(Split(s)) == s
    decreases |s|
  {
    if s != [] {
      var rest := Split(s[1..]);
      JoinSplit(s[1..]);
      if s[0] == NL {
        assert Split(s) == [[]] + rest;
        assert ([[]] + rest)[1..] == rest;
      } else {
        var r := Split(s);
        assert r == [[s[0]] + rest[0]] + rest[1..];
        if |rest| == 1 {
          assert Join(r) == [s[0]] + rest[0];
        } else {
          assert r[1..] == rest[1..];
          assert Join(rest) == rest[0] + [NL] + Join(rest[1..]);
        }
      }
    }
  }

  /** A newline-free prefix stays glued to the first segment of what follows. */
  lemma {:induction false} SplitPrefix(a: Bytes, t: Bytes)
    requires NL !in a
    ensures Split(a + t) == [a + Split(t)[0]] + Split(t)[1..]
    decreases |a|
  {
    if a == [] {
      var r := Split(t);
      assert a + t == t && a + r[0] == r[0];
      assert [r[0]] + r[1..] == r;
    } else {
      assert (a + t)[1..] == a[1..] + t;
      SplitPrefix(a[1..], t);
      assert [a[0]] + (a[1..] + Split(t)[0]) == a + Split(t)[0];
    }
  }

  /** Joining and splitting newline-free segments gives the segments back. */
  lemma {:induction false} SplitJoin(ls: seq<Bytes>)
    requires |ls| >= 1 && NewlineFree(ls)
    ensures Split(Join(ls)) == ls
    decreases |ls|
  {
    if |ls| == 1 {
      SplitPrefix(ls[0], []);
      assert ls[0] + [] == ls[0];
    } else {
      var j := Join(ls[1..]);
      SplitJoin(ls[1..]);
      assert ([NL] + j)[1..] == j;
      assert Split([NL] + j) == [[]] + ls[1..];
      assert ls[0] + [NL] + j == ls[0] + ([NL] + j);
      SplitPrefix(ls[0], [NL] + j);
      assert ls[0] + [] == ls[0];
    }
  }

  /** A newline-free input is a single segment. */
  lemma SplitSingle(s: Bytes)
    requires NL !in s
    ensures Split(s) == [s]
  {
    SplitPrefix(s, []);
    assert s + [] == s;
  }

  /** Joining two runs of segments is joining each, with a newline between. */
  lemma {:induction false} JoinConcat(x: seq<Bytes>, y: seq<Bytes>)
    requires |x| >= 1 && |y| >= 1
    ensures Join(x + y) == Join(x) + [NL] + Join(y)
    decreases |x|
  {
    if |x| == 1 {
      assert (x + y)[1..] == y;
    } else {
      assert (x + y)[1..] == x[1..] + y;
      JoinConcat(x[1..], y);
    }
  }

  // ---------------------------------------------------------------------------
  // Substring search (`contains`)
  // ---------------------------------------------------------------------------

  predicate OccursAt<T(==)>(s: seq<T>, sub: seq<T>, i: nat) {
    i + |sub| <= |s| && s[i..i + |sub|] == sub
  }

  lemma OccursAtTail<T>(s: seq<T>, sub: seq<T>, i: nat)
    requires |s| > 0
    ensures OccursAt(s, sub, i + 1) <==> OccursAt(s[1..], sub, i)
  {
    if i + 1 + |sub| <= |s| {
      assert s[i + 1..i + 1 + |sub|] == s[1..][i..i + |sub|];
    }
  }

  /** Whether `sub` occurs somewhere in `s`, found by scanning from the left. */
  function Contains<T(==)>(s: seq<T>, sub: seq<T>): (r: bool)
    ensures r <==> exists i: nat :: OccursAt(s, sub, i)
    decreases |s|
  {
    if |s| < |sub| then false
    else if s[..|sub|] == sub then assert OccursAt(s, sub, 0); true
    else
      var r := Contains(s[1..], sub);
      assert forall i: nat :: OccursAt(s, sub, i) ==> i > 0 && OccursAt(s[1..], sub, i - 1) by {
        forall i: nat | OccursAt(s, sub, i) ensures i > 0 && OccursAt(s[1..], sub, i - 1) {
          OccursAtTail(s, sub, i - 1);
        }
      }
      assert r ==> exists i: nat :: OccursAt(s, sub, i) by {
        if r {
          var i: nat :| OccursAt(s[1..], sub, i);
          OccursAtTail(s, sub, i);
        }
      }
      r
  }

  /** A non-empty pattern whose first element never appears cannot occur. */
  lemma NotContainedWithoutFirst<T>(s: seq<T>, sub: seq<T>)
    requires |sub| > 0 && sub[0] !in s
    ensures !Contains(s, sub)
  {
    forall i: nat ensures !OccursAt(s, sub, i) {
      if i + |sub| <= |s| {
        assert s[i..i + |sub|][0] == s[i];
      }
    }
  }

  // ---------------------------------------------------------------------------
  // Decimal rendering of integers (`{}` and `{:?}` on integer types)
  // ---------------------------------------------------------------------------

  predicate IsDigit(c: char) {
    '0' <= c <= '9'
  }

  predicate AllDigits(s: string) {
    forall i :: 0 <= i < |s| ==> IsDigit(s[i])
  }

  function DigitChar(d: nat): (c: char)
    requires d < 10
    ensures IsDigit(c) && c as int - '0' as int == d
  {
    ('0' as int + d) as char
  }

  /** The shortest decimal representation of `n`. */
  function Decimal(n: nat): (s: string)
    ensures |s| >= 1 && AllDigits(s)
    ensures s[0] == '0' <==> n == 0
    ensures n == 0 <==> s == "0"
    decreases n
  {
    if n < 10 then [DigitChar(n)] else Decimal(n / 10) + [DigitChar(n % 10)]
  }

  /** Rendering of a signed integer: a minus sign before a negative number's magnitude. */
  function SignedDecimal(i: int): string {
    if i < 0 then "-" + Decimal(-i) else Decimal(i)
  }

  function DigitsValue(s: string): nat
    requires AllDigits(s)
    decreases |s|
  {
    if s == [] then 0 else DigitsValue(s[..|s| - 1]) * 10 + (s[|s| - 1] as int - '0' as int)
  }

  /** Reads back a non-empty string of decimal digits. */
  function ParseDecimal(s: string): (r: Option<nat>)
    ensures r.Some? <==> |s| >= 1 && AllDigits(s)
  {
    if |s| >= 1 && AllDigits(s) then Some(DigitsValue(s)) else None
  }

  /** Reading back a rendered number yields the number. */
  lemma {:induction false} ParseDecimalRoundTrip(n: nat)
    ensures ParseDecimal(Decimal(n)) == Some(n)
    decreases n
  {
    var s := Decimal(n);
    if n < 10 {
      assert s[..|s| - 1] == [];
      assert DigitsValue(s) == DigitsValue([]) * 10 + n;
    } else {
      ParseDecimalRoundTrip(n / 10);
      assert s[..|s| - 1] == Decimal(n / 10);
    }
  }
}
