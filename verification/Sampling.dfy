/** Password generation by rejection sampling on 64-bit draws. */
module Sampling {
  import opened Prelude

  const RANGE: nat := 0x1_0000_0000_0000_0000
  const MAX_OUTPUT_BYTES: nat := 1024 * 1024
  const MAX_ALPHABET_CHARS: nat := 4096

  datatype Error = Empty | DuplicateAlphabetCharacter | Limit | Randomness

  // ---- Which draws hit an index ---------------------------------------------------

  /** `bound.wrapping_neg() % bound` on u64. */
  function Threshold(bound: nat): nat
    requires 0 < bound < RANGE
  {
    (RANGE - bound) % bound
  }

  predicate Accepted(bound: nat, draw: nat)
    requires 0 < bound < RANGE
  {
    Threshold(bound) <= draw < RANGE
  }

  /** The accepted draws that give index `i`. */
  function Draws(bound: nat, i: nat): set<nat>
    requires 0 < bound < RANGE
  {
    set v | Threshold(bound) <= v < RANGE && v % bound == i
  }

  lemma ModOfProduct(q: nat, b: nat, r: nat)
    requires r < b
    ensures (q * b + r) % b == r && (q * b + r) / b == q
  {
    var x := q * b + r;
    assert x == x / b * b + x % b;
    if x / b != q {
      Gap(x / b, q, b);
    }
  }

  /** Different multiples of `b` are at least `b` apart. */
  lemma Gap(p: nat, q: nat, b: nat)
    requires p != q
    ensures p * b >= q * b + b || q * b >= p * b + b
  {
    if p > q { Above(p, q, b); } else { Above(q, p, b); }
  }

  lemma {:induction false} Above(p: nat, q: nat, b: nat)
    requires p > q
    ensures p * b >= q * b + b
    decreases p
  {
    Distribute(p, b);
    if p > q + 1 { Above(p - 1, q, b); }
  }

  /** Any `b` consecutive numbers contain exactly one of each residue. */
  lemma OnePerBlock(e: nat, b: nat, i: nat) returns (x: nat)
    requires i < b
    ensures e <= x < e + b && x % b == i
    ensures forall y :: e <= y < e + b && y % b == i ==> y == x
  {
    var q, r := e / b, e % b;
    assert e == q * b + r;
    if i >= r {
      x := q * b + i;
      ModOfProduct(q, b, i);
    } else {
      x := (q + 1) * b + i;
      ModOfProduct(q + 1, b, i);
      assert (q + 1) * b == q * b + b;
    }
    forall y | e <= y < e + b && y % b == i ensures y == x {
      SameResidue(x, y, b);
    }
  }

  lemma SameResidue(x: nat, y: nat, b: nat)
    requires b > 0 && x % b == y % b && x < y + b && y < x + b
    ensures x == y
  {
    var p, q := x / b, y / b;
    assert x == p * b + x % b && y == q * b + y % b;
    if p != q {
      Gap(p, q, b);
    }
  }

  function Residues(t: nat, e: nat, b: nat, i: nat): set<nat>
    requires b > 0
  {
    set v | t <= v < e && v % b == i
  }

  lemma {:induction false} CountResidues(t: nat, q: nat, b: nat, i: nat)
    requires i < b
    ensures |Residues(t, t + q * b, b, i)| == q
    decreases q
  {
    if q == 0 {
      assert Residues(t, t + q * b, b, i) == {};
    } else {
      CountResidues(t, q - 1, b, i);
      var e := t + (q - 1) * b;
      assert t + q * b == e + b;
      var x := OnePerBlock(e, b, i);
      assert Residues(t, e + b, b, i) == Residues(t, e, b, i) + {x};
    }
  }

  lemma QuotientPositive(n: nat, b: nat)
    requires 0 < b <= n
    ensures n / b > 0
  {
    assert n == n / b * b + n % b;
  }

  /** Every index below the bound is hit by exactly floor(2^64 / bound) of the
      accepted draws. */
  lemma UniformIndex(bound: nat, i: nat)
    requires 0 < bound < RANGE && i < bound
    ensures |Draws(bound, i)| == RANGE / bound
  {
    var q, t := RANGE / bound, Threshold(bound);
    assert RANGE == q * bound + RANGE % bound;
    QuotientPositive(RANGE, bound);
    assert RANGE - bound == (q - 1) * bound + RANGE % bound by { assert (q - 1) * bound == q * bound - bound; }
    ModOfProduct(q - 1, bound, RANGE % bound);
    assert t == RANGE % bound;
    CountResidues(t, q, bound, i);
    assert Draws(bound, i) == Residues(t, t + q * bound, bound, i);
  }

  // ---- Drawing from a random source -----------------------------------------------

  /** `k` is the first accepted draw. */
  predicate FirstAccepted(bound: nat, draws: seq<nat>, k: nat)
    requires 0 < bound < RANGE
  {
    k < |draws| && Accepted(bound, draws[k]) && forall j :: 0 <= j < k ==> !Accepted(bound, draws[j])
  }

  /** The first accepted draw gives the index and `rest` follows it, or there is none. */
  ghost predicate Drawn(bound: nat, draws: seq<nat>, r: Result<nat, Error>, rest: seq<nat>)
    requires 0 < bound < RANGE
  {
    if r.Ok? then
      r.value < bound
      && exists k: nat :: FirstAccepted(bound, draws, k) && r.value == draws[k] % bound && rest == draws[k + 1..]
    else r.error == Randomness && rest == [] && forall i :: 0 <= i < |draws| ==> !Accepted(bound, draws[i])
  }

  /** `uniform_index`: draws until one is accepted, and no further. */
  method DrawIndex(bound: nat, draws: seq<nat>) returns (r: Result<nat, Error>, rest: seq<nat>)
    requires 0 < bound < RANGE && forall i :: 0 <= i < |draws| ==> draws[i] < RANGE
    ensures Drawn(bound, draws, r, rest)
  {
    rest := draws;
    ghost var k := 0;
    while rest != []
      invariant k <= |draws| && rest == draws[k..] && forall j :: 0 <= j < k ==> !Accepted(bound, draws[j])
      decreases |rest|
    {
      var value := rest[0];
      rest := rest[1..];
      if value >= Threshold(bound) {
        assert FirstAccepted(bound, draws, k);
        return Ok(value % bound), rest;
      }
      k := k + 1;
    }
    r := Err(Randomness);
  }

  lemma {:induction false} ChosenFrom(bound: nat, draws: seq<nat>, k: nat)
    requires 0 < bound < RANGE && k <= |draws| && forall j :: 0 <= j < k ==> !Accepted(bound, draws[j])
    ensures Chosen(bound, draws) == Chosen(bound, draws[k..])
  {
    if k > 0 {
      ChosenFrom(bound, draws[1..], k - 1);
      assert draws[1..][k - 1..] == draws[k..];
    } else {
      assert draws[k..] == draws;
    }
  }

  /** What a draw means for the accepted draws. */
  lemma DrawnChosen(bound: nat, draws: seq<nat>, r: Result<nat, Error>, rest: seq<nat>)
    requires 0 < bound < RANGE && Drawn(bound, draws, r, rest)
    ensures r.Ok? <==> Chosen(bound, draws) != []
    ensures r.Ok? ==> r.value == Chosen(bound, draws)[0] % bound && Chosen(bound, rest) == Chosen(bound, draws)[1..]
    ensures forall i :: 0 <= i < |rest| ==> rest[i] in draws
  {
    if r.Ok? {
      var k: nat :| FirstAccepted(bound, draws, k) && r.value == draws[k] % bound && rest == draws[k + 1..];
      ChosenFrom(bound, draws, k);
      assert draws[k..][1..] == draws[k + 1..] && draws[k..][0] == draws[k];
    } else {
      ChosenFrom(bound, draws, |draws|);
    }
  }

  /** The accepted ones among the draws, in order. */
  function Chosen(bound: nat, draws: seq<nat>): seq<nat>
    requires 0 < bound < RANGE
  {
    if draws == [] then []
    else (if Accepted(bound, draws[0]) then [draws[0]] else []) + Chosen(bound, draws[1..])
  }

  // ---- UTF-8 (section 3 of RFC 3629) ----------------------------------------------

  type Scalar = c: int | 0 <= c < 0xD800 || 0xE000 <= c < 0x11_0000

  /** A continuation byte: the low six bits of `x`. */
  function Tail(x: nat): (b: Byte)
    ensures 0x80 <= b < 0xC0
  {
    0x80 + x % 64
  }

  /** A leading byte: the mark of the width and the bits above the tails. */
  function Lead(mark: nat, x: nat): (b: Byte)
    requires mark + x < 256
  {
    mark + x
  }

  function Utf8(c: Scalar): (r: Bytes)
    ensures 1 <= |r| <= 4
  {
    if c < 0x80 then [c]
    else if c < 0x800 then [Lead(0xC0, c / 64), Tail(c)]
    else if c < 0x1_0000 then [Lead(0xE0, c / 64 / 64), Tail(c / 64), Tail(c)]
    else [Lead(0xF0, c / 64 / 64 / 64), Tail(c / 64 / 64), Tail(c / 64), Tail(c)]
  }

  /** The first byte of an encoding tells its length. */
  function Width(first: Byte): nat {
    if first < 0x80 then 1 else if first < 0xE0 then 2 else if first < 0xF0 then 3 else 4
  }

  /** Every scalar has the shortest encoding that holds its bits. */
  lemma Utf8Width(c: Scalar)
    ensures |Utf8(c)| == Width(Utf8(c)[0])
    ensures (|Utf8(c)| == 1 <==> c < 0x80) && (|Utf8(c)| <= 2 <==> c < 0x800) && (|Utf8(c)| <= 3 <==> c < 0x1_0000)
  {
  }

  /** The scalar an encoding stands for. */
  function Decoded(b: Bytes): int
    requires 1 <= |b| <= 4
  {
    if |b| == 1 then b[0]
    else if |b| == 2 then (b[0] as int - 0xC0) * 64 + (b[1] as int - 0x80)
    else if |b| == 3 then (b[0] as int - 0xE0) * 4096 + (b[1] as int - 0x80) * 64 + (b[2] as int - 0x80)
    else (b[0] as int - 0xF0) * 0x4_0000 + (b[1] as int - 0x80) * 4096 + (b[2] as int - 0x80) * 64 + (b[3] as int - 0x80)
  }

  lemma Utf8Decoded(c: Scalar)
    ensures Decoded(Utf8(c)) == c
  {
    var d := c / 64;
    var e := d / 64;
    assert c == d * 64 + c % 64 && d == e * 64 + d % 64 && e == e / 64 * 64 + e % 64;
  }

  lemma Utf8Cancel(a: Scalar, x: Bytes, b: Scalar, y: Bytes)
    requires Utf8(a) + x == Utf8(b) + y
    ensures a == b && x == y
  {
    hide Utf8, Decoded;
    var s := Utf8(a) + x;
    assert s[0] == Utf8(a)[0] == Utf8(b)[0];
    Utf8Width(a);
    Utf8Width(b);
    var n := |Utf8(a)|;
    assert s[..n] == Utf8(a) == Utf8(b);
    assert s[n..] == x == y;
    Utf8Decoded(a);
    Utf8Decoded(b);
  }

  // ---- Passwords --------------------------------------------------------------------

  function Spelled(alphabet: seq<Scalar>, indices: seq<nat>): Bytes
    requires forall i :: 0 <= i < |indices| ==> indices[i] < |alphabet|
  {
    if indices == [] then [] else Utf8(alphabet[indices[0]]) + Spelled(alphabet, indices[1..])
  }

  function Indices(bound: nat, draws: seq<nat>): (r: seq<nat>)
    requires 0 < bound
    ensures |r| == |draws| && forall i :: 0 <= i < |r| ==> r[i] == draws[i] % bound && r[i] < bound
  {
    seq(|draws|, i requires 0 <= i < |draws| => draws[i] % bound)
  }

  /** Over a duplicate-free alphabet, different index sequences of one length
      spell different passwords. */
  lemma {:induction false} SpelledInjective(alphabet: seq<Scalar>, a: seq<nat>, b: seq<nat>)
    requires NoDup(alphabet) && |a| == |b|
    requires forall i :: 0 <= i < |a| ==> a[i] < |alphabet|
    requires forall i :: 0 <= i < |b| ==> b[i] < |alphabet|
    requires Spelled(alphabet, a) == Spelled(alphabet, b)
    ensures a == b
    decreases |a|
  {
    hide Utf8;
    if a != [] {
      Utf8Cancel(alphabet[a[0]], Spelled(alphabet, a[1..]), alphabet[b[0]], Spelled(alphabet, b[1..]));
      assert a[0] == b[0];
      SpelledInjective(alphabet, a[1..], b[1..]);
      assert a == [a[0]] + a[1..] && b == [b[0]] + b[1..];
    }
  }

  function Pow(base: nat, e: nat): nat {
    if e == 0 then 1 else base * Pow(base, e - 1)
  }

  ghost function Cross(heads: set<nat>, tails: set<seq<nat>>): set<seq<nat>> {
    set v, rest | v in heads && rest in tails :: [v] + rest
  }

  lemma CrossMember(heads: set<nat>, tails: set<seq<nat>>, s: seq<nat>)
    ensures s in Cross(heads, tails) <==> s != [] && s[0] in heads && s[1..] in tails
  {
    if s in Cross(heads, tails) {
      var v, rest :| v in heads && rest in tails && s == [v] + rest;
      assert s[1..] == rest;
    }
    if s != [] && s[0] in heads && s[1..] in tails {
      assert s == [s[0]] + s[1..];
    }
  }

  /** The sequences of accepted draws that give these indices. */
  ghost function Preimages(bound: nat, indices: seq<nat>): set<seq<nat>>
    requires 0 < bound < RANGE
  {
    if indices == [] then {[]}
    else Cross(Draws(bound, indices[0]), Preimages(bound, indices[1..]))
  }

  lemma {:induction false} PreimageMember(bound: nat, indices: seq<nat>, draws: seq<nat>)
    requires 0 < bound < RANGE
    ensures draws in Preimages(bound, indices) <==>
      |draws| == |indices|
      && forall i :: 0 <= i < |draws| ==> Accepted(bound, draws[i]) && draws[i] % bound == indices[i]
    decreases |indices|
  {
    if indices != [] {
      CrossMember(Draws(bound, indices[0]), Preimages(bound, indices[1..]), draws);
      if draws != [] {
        PreimageMember(bound, indices[1..], draws[1..]);
        if draws[0] in Draws(bound, indices[0]) && draws[1..] in Preimages(bound, indices[1..]) {
          forall i | 0 <= i < |draws| ensures Accepted(bound, draws[i]) && draws[i] % bound == indices[i] {
            if i > 0 { assert draws[1..][i - 1] == draws[i] && indices[1..][i - 1] == indices[i]; }
          }
        }
      }
    }
  }

  lemma {:induction false} CrossCount(heads: set<nat>, tails: set<seq<nat>>)
    ensures |Cross(heads, tails)| == |heads| * |tails|
    decreases |heads|
  {
    if heads == {} {
      forall s ensures s !in Cross(heads, tails) { CrossMember(heads, tails, s); }
      assert Cross(heads, tails) == {};
    } else {
      var h :| h in heads;
      var others, mine := Cross(heads - {h}, tails), Cross({h}, tails);
      CrossCount(heads - {h}, tails);
      HeadCount(h, tails);
      forall s ensures s in Cross(heads, tails) <==> s in others || s in mine
               ensures !(s in others && s in mine)
      {
        CrossMember(heads, tails, s);
        CrossMember(heads - {h}, tails, s);
        CrossMember({h}, tails, s);
      }
      SumCount(Cross(heads, tails), others, mine);
      Distribute(|heads|, |tails|);
    }
  }

  lemma SumCount(all: set<seq<nat>>, a: set<seq<nat>>, b: set<seq<nat>>)
    requires forall s :: (s in all <==> s in a || s in b) && !(s in a && s in b)
    ensures |all| == |a| + |b|
  {
    assert all == a + b && a !! b;
  }

  lemma Distribute(k: nat, t: nat)
    requires k > 0
    ensures (k - 1) * t + t == k * t
  {
  }

  lemma {:induction false} HeadCount(h: nat, tails: set<seq<nat>>)
    ensures |Cross({h}, tails)| == |tails|
    decreases |tails|
  {
    if tails == {} {
      forall s ensures s !in Cross({h}, tails) { CrossMember({h}, tails, s); }
      assert Cross({h}, tails) == {};
    } else {
      var t :| t in tails;
      var others := Cross({h}, tails - {t});
      HeadCount(h, tails - {t});
      forall s ensures s in Cross({h}, tails) <==> s in others || s in {[h] + t}
               ensures !(s in others && s in {[h] + t})
      {
        CrossMember({h}, tails, s);
        CrossMember({h}, tails - {t}, s);
        if s != [] { assert s == [s[0]] + s[1..]; }
        assert ([h] + t)[1..] == t;
      }
      SumCount(Cross({h}, tails), others, {[h] + t});
    }
  }

  lemma {:induction false} PreimageCount(bound: nat, indices: seq<nat>)
    requires 0 < bound < RANGE && forall i :: 0 <= i < |indices| ==> indices[i] < bound
    ensures |Preimages(bound, indices)| == Pow(RANGE / bound, |indices|)
    decreases |indices|
  {
    if indices != [] {
      hide Draws;
      PreimageCount(bound, indices[1..]);
      UniformIndex(bound, indices[0]);
      CrossCount(Draws(bound, indices[0]), Preimages(bound, indices[1..]));
    }
  }

  /** The accepted draw sequences that produce `password`. */
  ghost predicate Produces(alphabet: seq<Scalar>, draws: seq<nat>, length: nat, password: Bytes)
    requires 0 < |alphabet| < RANGE
  {
    |draws| == length && (forall i :: 0 <= i < |draws| ==> Accepted(|alphabet|, draws[i]))
    && Spelled(alphabet, Indices(|alphabet|, draws)) == password
  }

  /** Every password of one length over a duplicate-free alphabet is produced by
      the same number of accepted draw sequences: floor(2^64 / n)^length. */
  lemma PasswordsAreUniform(alphabet: seq<Scalar>, indices: seq<nat>)
    requires 0 < |alphabet| < RANGE && NoDup(alphabet)
    requires forall i :: 0 <= i < |indices| ==> indices[i] < |alphabet|
    ensures forall draws ::
      draws in Preimages(|alphabet|, indices) <==>
      Produces(alphabet, draws, |indices|, Spelled(alphabet, indices))
    ensures |Preimages(|alphabet|, indices)| == Pow(RANGE / |alphabet|, |indices|)
  {
    var n := |alphabet|;
    PreimageCount(n, indices);
    forall draws
      ensures draws in Preimages(n, indices) <==> Produces(alphabet, draws, |indices|, Spelled(alphabet, indices))
    {
      PreimageMember(n, indices, draws);
      if Produces(alphabet, draws, |indices|, Spelled(alphabet, indices)) {
        SpelledInjective(alphabet, Indices(n, draws), indices);
        forall i | 0 <= i < |draws| ensures draws[i] % n == indices[i] {
          assert Indices(n, draws)[i] == indices[i];
        }
      }
      if draws in Preimages(n, indices) {
        assert Indices(n, draws) == indices;
      }
    }
  }

  /** What stands in the way of a password, or else a lack of random bytes. */
  function WhyNot(length: nat, alphabet: seq<Scalar>): Error {
    if length == 0 || alphabet == [] then Empty
    else if |alphabet| > 4096 then Limit
    else if !NoDup(alphabet) then DuplicateAlphabetCharacter
    else if 4 * length > 1048576 then Limit
    else Randomness
  }

  /** `password`: the accepted draws, in order, spell the output. */
  method Password(length: nat, alphabet: seq<Scalar>, draws: seq<nat>) returns (r: Result<Bytes, Error>)
    requires forall i :: 0 <= i < |draws| ==> draws[i] < RANGE
    ensures r.Ok? <==>
      0 < length && 4 * length <= MAX_OUTPUT_BYTES && 0 < |alphabet| <= MAX_ALPHABET_CHARS && NoDup(alphabet)
      && length <= |Chosen(|alphabet|, draws)|
    ensures r.Ok? ==> Produces(alphabet, Chosen(|alphabet|, draws)[..length], length, r.value)
    ensures r.Err? ==> r.error == WhyNot(length, alphabet)
  {
    hide Spelled, Indices, Chosen, Accepted;
    if length == 0 || alphabet == [] {
      return Err(Empty);
    }
    if |alphabet| > MAX_ALPHABET_CHARS {
      return Err(Limit);
    }
    NoDupExactly(alphabet);
    if |SetOf(alphabet)| != |alphabet| {
      return Err(DuplicateAlphabetCharacter);
    }
    if 4 * length > MAX_OUTPUT_BYTES {
      return Err(Limit);
    }
    r := Spell(length, alphabet, draws);
    if r.Ok? { ChosenAccepted(|alphabet|, draws); }
  }

  /** The loop of `password`: one accepted draw for every character. */
  method Spell(length: nat, alphabet: seq<Scalar>, draws: seq<nat>) returns (r: Result<Bytes, Error>)
    requires 0 < |alphabet| < RANGE && forall i :: 0 <= i < |draws| ==> draws[i] < RANGE
    ensures r.Ok? <==> length <= |Chosen(|alphabet|, draws)|
    ensures r.Ok? ==> r.value == Spelled(alphabet, Indices(|alphabet|, Chosen(|alphabet|, draws)[..length]))
    ensures r.Err? ==> r.error == Randomness
  {
    hide Utf8, Accepted, Chosen, Indices, Spelled;
    var n := |alphabet|;
    ghost var chosen: seq<nat> := Chosen(n, draws);
    var output: Bytes := [];
    var rest: seq<nat> := draws;
    NothingSpelled(alphabet, chosen);
    for k := 0 to length
      invariant k <= |chosen| && Chosen(n, rest) == chosen[k..]
      invariant forall i :: 0 <= i < |rest| ==> rest[i] < RANGE
      invariant output == Spelled(alphabet, Indices(n, chosen[..k]))
    {
      var index: Result<nat, Error>;
      ghost var before := rest;
      index, rest := DrawIndex(n, rest);
      DrawnChosen(n, before, index, rest);
      if index.Err? {
        return Err(index.error);
      }
      assert chosen[k..][0] == chosen[k] && chosen[k..][1..] == chosen[k + 1..];
      SpelledStep(alphabet, chosen, k);
      output := output + Utf8(alphabet[index.value]);
    }
    r := Ok(output);
  }

  lemma NothingSpelled(alphabet: seq<Scalar>, chosen: seq<nat>)
    requires 0 < |alphabet|
    ensures Spelled(alphabet, Indices(|alphabet|, chosen[..0])) == []
  {
  }

  lemma SpelledStep(alphabet: seq<Scalar>, chosen: seq<nat>, k: nat)
    requires 0 < |alphabet| && k < |chosen|
    ensures Spelled(alphabet, Indices(|alphabet|, chosen[..k + 1]))
         == Spelled(alphabet, Indices(|alphabet|, chosen[..k])) + Utf8(alphabet[chosen[k] % |alphabet|])
  {
    hide Utf8, Spelled;
    IndicesSnoc(|alphabet|, chosen, k);
    SpelledSnoc(alphabet, Indices(|alphabet|, chosen[..k]), chosen[k] % |alphabet|);
  }

  lemma {:induction false} ChosenAccepted(bound: nat, draws: seq<nat>)
    requires 0 < bound < RANGE
    ensures forall i :: 0 <= i < |Chosen(bound, draws)| ==> Accepted(bound, Chosen(bound, draws)[i])
  {
    if draws != [] {
      ChosenAccepted(bound, draws[1..]);
    }
  }

  lemma IndicesSnoc(bound: nat, draws: seq<nat>, k: nat)
    requires 0 < bound && k < |draws|
    ensures Indices(bound, draws[..k + 1]) == Indices(bound, draws[..k]) + [draws[k] % bound]
  {
    assert draws[..k + 1] == draws[..k] + [draws[k]];
  }

  lemma {:induction false} SpelledSnoc(alphabet: seq<Scalar>, indices: seq<nat>, i: nat)
    requires i < |alphabet| && forall k :: 0 <= k < |indices| ==> indices[k] < |alphabet|
    ensures Spelled(alphabet, indices + [i]) == Spelled(alphabet, indices) + Utf8(alphabet[i])
    decreases |indices|
  {
    hide Utf8;
    if indices == [] {
      assert [] + [i] == [i] && [i][1..] == [];
      assert Spelled(alphabet, [i]) == Utf8(alphabet[i]) + Spelled(alphabet, []);
    } else {
      assert (indices + [i])[1..] == indices[1..] + [i];
      SpelledSnoc(alphabet, indices[1..], i);
    }
  }
}
