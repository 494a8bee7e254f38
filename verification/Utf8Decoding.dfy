/** UTF-8 can be read back: a byte sequence is the encoding of at most one text. */
module Utf8Decoding {
  import opened GuardText

  predicate Trailing(b: nat) {
    0x80 <= b <= 0xBF
  }

  /** The four forms of section 3 of RFC 3629. */
  lemma Utf8Forms(c: char)
    ensures var u, n := Utf8(c), c as int;
      && (n <= 0x7F ==> u == [n])
      && (0x80 <= n <= 0x7FF ==> |u| == 2 && 0xC2 <= u[0] <= 0xDF && Trailing(u[1]))
      && (0x800 <= n <= 0xFFFF ==>
            |u| == 3 && 0xE0 <= u[0] <= 0xEF && Trailing(u[1]) && Trailing(u[2]))
      && (0x1_0000 <= n ==>
            |u| == 4 && 0xF0 <= u[0] <= 0xF4 && Trailing(u[1]) && Trailing(u[2]) && Trailing(u[3]))
  {
  }

  /** The UTF-8 sequence at the start of a text determines its first character. */
  lemma Utf8Determines(c: char, x: seq<nat>, d: char, y: seq<nat>)
    requires Utf8(c) + x == Utf8(d) + y
    ensures c == d && x == y
  {
    var s, t := Utf8(c) + x, Utf8(d) + y;
    assert s[0] == Utf8(c)[0] && t[0] == Utf8(d)[0];
    Utf8Lengths(c);
    Utf8Lengths(d);
    assert |Utf8(c)| == |Utf8(d)|;
    assert Utf8(c) == s[..|Utf8(c)|] == Utf8(d);
    assert x == s[|Utf8(c)|..] && y == t[|Utf8(d)|..];
    SameUtf8(c, d);
  }

  lemma Utf8Lengths(c: char)
    ensures |Utf8(c)| == (if Utf8(c)[0] < 0x80 then 1 else if Utf8(c)[0] < 0xE0 then 2
                          else if Utf8(c)[0] < 0xF0 then 3 else 4)
  {
  }

  lemma SameUtf8(c: char, d: char)
    requires Utf8(c) == Utf8(d)
    ensures c == d
  {
    ScalarOfUtf8(c);
    ScalarOfUtf8(d);
  }

  /** The scalar value packed in a UTF-8 sequence. */
  function Scalar(u: seq<int>): int {
    if |u| == 1 then u[0]
    else if |u| == 2 then (u[0] - 0xC0) * 64 + (u[1] - 0x80)
    else if |u| == 3 then (u[0] - 0xE0) * 4096 + (u[1] - 0x80) * 64 + (u[2] - 0x80)
    else if |u| == 4 then
      (u[0] - 0xF0) * 262144 + (u[1] - 0x80) * 4096 + (u[2] - 0x80) * 64 + (u[3] - 0x80)
    else 0
  }

  lemma SixBitGroups(n: nat)
    ensures n == n / 64 * 64 + n % 64
    ensures n == n / 4096 * 4096 + n / 64 % 64 * 64 + n % 64
    ensures n == n / 262144 * 262144 + n / 4096 % 64 * 4096 + n / 64 % 64 * 64 + n % 64
  {
    var a := n / 64;
    var b := a / 64;
    assert n / 4096 == b && n / 262144 == b / 64;
  }

  lemma ScalarOfUtf8(c: char)
    ensures Scalar(Utf8(c)) == c as int
  {
    var n, u := c as int, Utf8(c);
    SixBitGroups(n);
    hide Scalar;
    assert n < 0x80 ==> u == [n];
    assert 0x80 <= n < 0x800 ==> u == [0xC0 + n / 64, 0x80 + n % 64];
    assert 0x800 <= n < 0x1_0000 ==> u == [0xE0 + n / 4096, 0x80 + n / 64 % 64, 0x80 + n % 64];
    hide Utf8;
    ScalarOfTwo(n / 64, n % 64);
    ScalarOfThree(n / 4096, n / 64 % 64, n % 64);
    ScalarOfFour(n / 262144, n / 4096 % 64, n / 64 % 64, n % 64);
    ScalarOfOne(n);
  }

  lemma ScalarOfOne(a: int)
    requires 0 <= a
    ensures Scalar([a]) == a
  {
  }

  lemma ScalarOfTwo(a: nat, b: nat)
    ensures Scalar([0xC0 + a, 0x80 + b]) == a * 64 + b
  {
  }

  lemma ScalarOfThree(a: nat, b: nat, c: nat)
    ensures Scalar([0xE0 + a, 0x80 + b, 0x80 + c]) == a * 4096 + b * 64 + c
  {
  }

  lemma ScalarOfFour(a: nat, b: nat, c: nat, d: nat)
    ensures Scalar([0xF0 + a, 0x80 + b, 0x80 + c, 0x80 + d])
      == a * 262144 + b * 4096 + c * 64 + d
  {
  }

  lemma {:induction false} BytesInjective(a: Text, b: Text)
    requires Bytes(a) == Bytes(b)
    ensures a == b
  {
    if a == [] || b == [] {
      if a != [] { Utf8Lengths(a[0]); }
      if b != [] { Utf8Lengths(b[0]); }
    } else {
      Utf8Determines(a[0], Bytes(a[1..]), b[0], Bytes(b[1..]));
      BytesInjective(a[1..], b[1..]);
      assert a == [a[0]] + a[1..] && b == [b[0]] + b[1..];
    }
  }
}
