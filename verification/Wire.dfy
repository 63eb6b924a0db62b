/** Length-prefixed byte strings: four big-endian length bytes, then the bytes
    (section 5 of RFC 4251; the launcher's batch frames look the same). */
module Wire {
  import opened Prelude

  function Pow256(width: nat): nat {
    if width == 0 then 1 else 256 * Pow256(width - 1)
  }

  /** The low `width` bytes of `n`, most significant first. */
  function Be(n: nat, width: nat): (r: Bytes)
    ensures |r| == width
    decreases width
  {
    if width == 0 then [] else Be(n / 256, width - 1) + [n % 256]
  }

  function FromBe(b: Bytes): (n: nat)
    ensures n < Pow256(|b|)
  {
    if b == [] then 0 else 256 * FromBe(b[..|b| - 1]) + b[|b| - 1]
  }

  lemma {:induction false} BeInverse(n: nat, width: nat)
    requires n < Pow256(width)
    ensures FromBe(Be(n, width)) == n
    decreases width
  {
    if width != 0 {
      BeInverse(n / 256, width - 1);
      assert Be(n, width)[..width - 1] == Be(n / 256, width - 1);
    }
  }

  lemma {:induction false} FromBeInverse(b: Bytes)
    ensures Be(FromBe(b), |b|) == b
    decreases |b|
  {
    if b != [] {
      FromBeInverse(b[..|b| - 1]);
    }
  }

  /** Two and four bytes, written out. */
  lemma BeBytes(n: nat)
    ensures Be(n, 2) == [n / 256 % 256, n % 256]
    ensures Be(n, 4) == [n / 256 / 256 / 256 % 256, n / 256 / 256 % 256, n / 256 % 256, n % 256]
  {
    var a, b, c := n / 256, n / 256 / 256, n / 256 / 256 / 256;
    assert Be(c, 1) == Be(c / 256, 0) + [c % 256] && Be(a, 1) == Be(a / 256, 0) + [a % 256];
    assert Be(b, 2) == Be(c, 1) + [b % 256] && Be(n, 2) == Be(a, 1) + [n % 256];
    assert Be(a, 3) == Be(b, 2) + [a % 256];
  }

  const LIMIT: nat := 0x1_0000_0000

  lemma LimitIsPow()
    ensures Pow256(4) == LIMIT && Pow256(2) == 0x1_0000
  {
    assert Pow256(1) == 256 * Pow256(0);
    assert Pow256(2) == 256 * Pow256(1);
    assert Pow256(3) == 256 * Pow256(2);
  }

  function Put(value: Bytes): Bytes {
    Be(|value|, 4) + value
  }

  /** Takes one string off the front; `None` if the input is too short. */
  function Take(input: Bytes): Option<(Bytes, Bytes)> {
    if |input| < 4 then None
    else
      var n := FromBe(input[..4]);
      if |input| < 4 + n then None else Some((input[4..4 + n], input[4 + n..]))
  }

  /** Taking a string succeeds exactly on inputs that start with one. */
  lemma TakeExactly(input: Bytes, value: Bytes, rest: Bytes)
    ensures Take(input) == Some((value, rest)) <==> |value| < LIMIT && input == Put(value) + rest
  {
    LimitIsPow();
    if |value| < LIMIT && input == Put(value) + rest {
      BeInverse(|value|, 4);
      assert input[..4] == Be(|value|, 4);
      assert input[4..4 + |value|] == value && input[4 + |value|..] == rest;
    }
    if Take(input) == Some((value, rest)) {
      FromBeInverse(input[..4]);
      assert input == input[..4] + input[4..4 + |value|] + input[4 + |value|..];
    }
  }

  /** A string and what follows it can be told apart. */
  lemma PutCancel(a: Bytes, x: Bytes, b: Bytes, y: Bytes)
    requires |a| < LIMIT && |b| < LIMIT && Put(a) + x == Put(b) + y
    ensures a == b && x == y
  {
    TakeExactly(Put(a) + x, a, x);
    TakeExactly(Put(b) + y, b, y);
  }

  function Ascii(s: string): (r: Bytes)
    ensures |r| == |s|
  {
    seq(|s|, i requires 0 <= i < |s| => s[i] as int % 256)
  }
}
