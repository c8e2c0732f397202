/** Numerals over an arbitrary alphabet of digits. */
module Alphabets {

  /** Digits that differ from one another, as many as bytes can at most. */
  predicate Alphabet(a: string) { 2 <= |a| <= 256 && forall i, j :: 0 <= i < j < |a| ==> a[i] != a[j] }

  predicate Over(a: string, s: string) { forall i :: 0 <= i < |s| ==> s[i] in a }

  /** string::find of one character; -1 stands for npos. */
  function Find(a: string, c: char): (i: int)
    ensures if i == -1 then c !in a else 0 <= i < |a| && a[i] == c && c !in a[..i]
  {
    if a == "" then -1
    else if a[0] == c then 0
    else
      var i := Find(a[1..], c);
      assert a == [a[0]] + a[1..];
      if i == -1 then -1 else assert a[..i + 1] == [a[0]] + a[1..][..i]; i + 1
  }

  lemma FindDigit(a: string, i: nat)
    requires Alphabet(a) && i < |a|
    ensures Find(a, a[i]) == i
  {}

  /** n, b times over: multiplication, unfolded one step at a time. */
  function Scale(b: nat, n: nat): nat { if b == 0 then 0 else n + Scale(b - 1, n) }

  lemma {:induction false} ScaleIs(b: nat, n: nat)
    ensures Scale(b, n) == b * n
  {
    if b > 0 { ScaleIs(b - 1, n); }
  }

  /** The number a numeral stands for, the most significant digit first. */
  function Number(a: string, s: string): nat
    requires Over(a, s)
  {
    if s == "" then 0 else Scale(|a|, Number(a, s[..|s| - 1])) + Find(a, s[|s| - 1])
  }

  /** The number when the least significant digit comes first and t lies above the last one. */
  function LittleOnto(a: string, s: string, t: nat): nat
    requires Over(a, s)
  {
    if s == "" then t else Find(a, s[0]) + Scale(|a|, LittleOnto(a, s[1..], t))
  }

  function Reverse(s: string): (r: string)
    ensures |r| == |s|
  {
    if s == "" then "" else Reverse(s[1..]) + [s[0]]
  }

  lemma {:induction false} ReverseNumber(a: string, s: string)
    requires Over(a, s)
    ensures Over(a, Reverse(s)) && Number(a, Reverse(s)) == LittleOnto(a, s, 0)
    ensures s != "" ==> Reverse(s)[0] == s[|s| - 1]
  {
    if s != "" {
      ReverseNumber(a, s[1..]);
      assert Reverse(s)[..|s| - 1] == Reverse(s[1..]);
    }
  }

  lemma {:induction false} LittleAppend(a: string, s: string, d: nat, t: nat)
    requires Alphabet(a) && Over(a, s) && d < |a|
    ensures Over(a, s + [a[d]]) && LittleOnto(a, s + [a[d]], t) == LittleOnto(a, s, d + Scale(|a|, t))
  {
    if s == "" {
      FindDigit(a, d);
      assert s + [a[d]] == [a[d]];
      assert LittleOnto(a, [a[d]][1..], t) == t;
    } else {
      LittleAppend(a, s[1..], d, t);
      assert (s + [a[d]])[1..] == s[1..] + [a[d]];
    }
  }

  lemma NumberAppend(a: string, s: string, c: char)
    requires Over(a, s) && c in a
    ensures Over(a, s + [c]) && Number(a, s + [c]) == Scale(|a|, Number(a, s)) + Find(a, c)
  {
    assert (s + [c])[..|s|] == s;
  }

  /** A numeral without leading zeros, or empty for zero. */
  predicate Stripped(a: string, s: string)
    requires a != ""
  {
    s != "" ==> s[0] != a[0]
  }

  /** Leading zeros do not count. */
  lemma {:induction false} DropZeros(a: string, s: string, n: nat)
    requires Alphabet(a) && Over(a, s) && n <= |s| && forall i :: 0 <= i < n ==> s[i] == a[0]
    ensures Number(a, s[n..]) == Number(a, s)
  {
    FindDigit(a, 0);
    ScaleIs(|a|, 0);
    if n == |s| {
      if s != "" { DropZeros(a, s[..|s| - 1], n - 1); }
    } else {
      DropZeros(a, s[..|s| - 1], n);
      assert s[n..][..|s| - n - 1] == s[..|s| - 1][n..];
    }
  }

  lemma {:induction false} PositiveNumber(a: string, s: string)
    requires Alphabet(a) && Over(a, s) && s != "" && s[0] != a[0]
    ensures Number(a, s) > 0
  {
    if |s| > 1 {
      PositiveNumber(a, s[..|s| - 1]);
      ScaleIs(|a|, Number(a, s[..|s| - 1]));
    } else {
      ScaleIs(|a|, 0);
      assert Number(a, s[..0]) == 0;
    }
  }

  // ---------------------------------------------------------------- which alphabets can write every number

  ghost predicate Writes(a: string, n: nat) { exists s: string :: Over(a, s) && Number(a, s) == n }

  /** Some text over a denotes each number if and only if a has at least two characters and repeats none. */
  lemma WritesEveryNumber(a: string)
    requires 1 <= |a| <= 256
    ensures (forall n: nat :: Writes(a, n)) <==> Alphabet(a)
  {
    if Alphabet(a) {
      forall n: nat
        ensures Writes(a, n)
      {
        var s := Written(a, n);
      }
    } else if |a| == 1 {
      if Writes(a, 1) {
        var s :| Over(a, s) && Number(a, s) == 1;
        OneCharacter(a, s);
      }
    } else {
      var i, j :| 0 <= i < j < |a| && a[i] == a[j];
      if Writes(a, j) {
        var s :| Over(a, s) && Number(a, s) == j;
        RepeatedCharacter(a, i, j, s);
      }
    }
  }

  lemma {:induction false} Written(a: string, n: nat) returns (s: string)
    requires Alphabet(a)
    ensures Over(a, s) && Number(a, s) == n
    decreases n
  {
    if n == 0 {
      s := "";
    } else {
      var q, r := LastDigit(n, |a|);
      var front := Written(a, q);
      FindDigit(a, r);
      NumberAppend(a, front, a[r]);
      s := front + [a[r]];
    }
  }

  lemma LastDigit(n: nat, b: nat) returns (q: nat, r: nat)
    requires 2 <= b && 1 <= n
    ensures q < n && r < b && n == Scale(b, q) + r
  {
    q, r := n / b, n % b;
    ScaleIs(b, q);
    assert 2 * q <= b * q;
  }

  lemma {:induction false} ScaleAtLeast(b: nat, n: nat)
    requires 1 <= n
    ensures b <= Scale(b, n)
  {
    if b > 0 { ScaleAtLeast(b - 1, n); }
  }

  lemma {:induction false} OneCharacter(a: string, s: string)
    requires |a| == 1 && Over(a, s)
    ensures Number(a, s) == 0
  {
    if s != "" {
      OneCharacter(a, s[..|s| - 1]);
      ScaleIs(1, 0);
    }
  }

  lemma RepeatedCharacter(a: string, i: nat, j: nat, s: string)
    requires i < j < |a| && a[i] == a[j] && Over(a, s)
    ensures Number(a, s) != j
  {
    if s != "" {
      var front, c := s[..|s| - 1], s[|s| - 1];
      if Number(a, front) >= 1 { ScaleAtLeast(|a|, Number(a, front)); }
      FirstFound(a, i, j, c);
      ScaleIs(|a|, 0);
    }
  }

  /** A character is found where it occurs first. */
  lemma FirstFound(a: string, i: nat, j: nat, c: char)
    requires i < j < |a| && a[i] == a[j]
    ensures Find(a, c) != j
  {
    assert a[..j][i] == a[i];
  }
}
