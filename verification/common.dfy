/** Shared vocabulary for every stage of the answer-sheet pipeline: optional
    values, an error-carrying result, ASCII case folding and a few sequence
    helpers, and percentages. */
module Common {

  /** An optional value. */
  datatype Option<+T> = None | Some(value: T)

  /** The outcome of a stage that can raise: the value, or the message of the
      exception the source raises. */
  datatype Result<+T> = Success(value: T) | Failure(error: string)

  function Min(a: int, b: int): (m: int)
    ensures m <= a && m <= b
    ensures m == a || m == b
  {
    if a <= b then a else b
  }

  function Abs(n: int): (m: nat)
    ensures m == n || m == -n
  {
    if n < 0 then -n else n
  }

  /** Upper-casing of one character, as str.upper does it for ASCII: the
      letters 'a'..'z' become 'A'..'Z' and every other character is kept. */
  function UpperChar(c: char): (u: char)
    ensures 'a' <= c <= 'z' ==> 'A' <= u <= 'Z' && u as int + 32 == c as int
    ensures !('a' <= c <= 'z') ==> u == c
  {
    if 'a' <= c <= 'z' then (c as int - 32) as char else c
  }

  /** str.upper on a whole string, character by character. */
  function Upper(s: string): (u: string)
    ensures |u| == |s|
    ensures forall i :: 0 <= i < |s| ==> u[i] == UpperChar(s[i])
  {
    seq(|s|, i requires 0 <= i < |s| => UpperChar(s[i]))
  }

  /** The concatenation of a sequence of sequences, in order. */
  function Flatten<T>(gs: seq<seq<T>>): seq<T>
  {
    if |gs| == 0 then [] else Flatten(gs[..|gs| - 1]) + gs[|gs| - 1]
  }

  /** `a` is `b` with some elements left out: the elements of `a` appear in
      `b` in the same order. */
  predicate IsSubsequence<T(==)>(a: seq<T>, b: seq<T>)
    decreases |b|
  {
    if |a| == 0 then true
    else if |b| == 0 then false
    else
      (a[|a| - 1] == b[|b| - 1] && IsSubsequence(a[..|a| - 1], b[..|b| - 1]))
      || IsSubsequence(a, b[..|b| - 1])
  }

  /** `p` is `count` out of `n` expressed in hundredths of `n`: scaled back
      by `n`, the percentage gives the count times 100. */
  predicate IsPercentageOf(p: real, count: int, n: nat)
  {
    p * n as real == count as real * 100.0
  }

  /** `count` out of `n` as a percentage. The count may be negative or exceed
      `n`; the percentage then leaves [0, 100] on the same side. */
  function Percentage(count: int, n: nat): (p: real)
    requires 0 < n
    ensures IsPercentageOf(p, count, n)
    ensures p >= 0.0 <==> count >= 0
    ensures p <= 100.0 <==> count <= n
  {
    QuotientFacts(count, n);
    count as real / n as real * 100.0
  }

  /** The quotient count / n has the sign of count and is at most 1 exactly
      when count is at most n. */
  lemma QuotientFacts(count: int, n: nat)
    requires 0 < n
    ensures var q := count as real / n as real;
            && q * n as real == count as real
            && (q >= 0.0 <==> count >= 0)
            && (q <= 1.0 <==> count <= n)
  {
    var q := count as real / n as real;
    var m := n as real;
    assert q * m == count as real;
    if q < 0.0 {
      assert q * m < 0.0;
    }
    if q > 1.0 {
      assert q * m > m;
    } else {
      assert q * m <= m;
    }
  }

  /** A percentage is 100 exactly for the full count and 0 exactly for none. */
  lemma PercentageExtremes(count: int, n: nat)
    requires 0 < n
    ensures Percentage(count, n) == 100.0 <==> count == n
    ensures Percentage(count, n) == 0.0 <==> count == 0
  {
    var p := Percentage(count, n);
    if p == 100.0 {
      assert 100.0 * n as real == count as real * 100.0;
    }
    if count == n {
      assert count as real / n as real == 1.0;
    }
  }
}
