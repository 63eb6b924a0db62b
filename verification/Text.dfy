/** Joining, splitting and printing text. */
module Text {
  function Join(parts: seq<string>, sep: string): string {
    if parts == [] then []
    else if |parts| == 1 then parts[0]
    else parts[0] + sep + Join(parts[1..], sep)
  }

  /** `str::split` at a character; there is always at least one piece. */
  function Split(s: string, c: char): (r: seq<string>)
    ensures r != []
  {
    if s == [] then [[]]
    else
      var rest := Split(s[1..], c);
      if s[0] == c then [[]] + rest else [[s[0]] + rest[0]] + rest[1..]
  }

  lemma {:induction false} SplitPieces(s: string, c: char, i: nat)
    requires i < |Split(s, c)|
    ensures c !in Split(s, c)[i]
  {
    if s != [] {
      var rest := Split(s[1..], c);
      if s[0] == c {
        if i > 0 { SplitPieces(s[1..], c, i - 1); }
      } else {
        SplitPieces(s[1..], c, i);
      }
    }
  }

  lemma {:induction false} JoinSplit(s: string, c: char)
    ensures Join(Split(s, c), [c]) == s
  {
    if s != [] {
      JoinSplit(s[1..], c);
      var rest := Split(s[1..], c);
      if s[0] == c {
        assert ([[]] + rest)[1..] == rest;
        assert s == [] + [c] + s[1..];
      } else {
        var r := [[s[0]] + rest[0]] + rest[1..];
        assert r[1..] == rest[1..];
        assert s == [s[0]] + s[1..];
      }
    }
  }

  lemma {:induction false} SplitPrefix(a: string, c: char, rest: string)
    requires c !in a
    ensures Split(a, c) == [a]
    ensures Split(a + [c] + rest, c) == [a] + Split(rest, c)
  {
    if a == [] {
      assert a + [c] + rest == [c] + rest && ([c] + rest)[1..] == rest;
    } else {
      SplitPrefix(a[1..], c, rest);
      assert (a + [c] + rest)[1..] == a[1..] + [c] + rest;
      assert [a[0]] + a[1..] == a;
    }
  }

  lemma {:induction false} SplitJoin(parts: seq<string>, c: char)
    requires parts != [] && forall i :: 0 <= i < |parts| ==> c !in parts[i]
    ensures Split(Join(parts, [c]), c) == parts
  {
    hide Split;
    if |parts| == 1 {
      SplitPrefix(parts[0], c, []);
    } else {
      assert parts == [parts[0]] + parts[1..];
      SplitJoin(parts[1..], c);
      SplitPrefix(parts[0], c, Join(parts[1..], [c]));
    }
  }

  /** The first separator tells two fields apart. */
  lemma {:induction false} CutCancel(a: string, x: string, b: string, y: string, c: char)
    requires c !in a && c !in b && a + [c] + x == b + [c] + y
    ensures a == b && x == y
  {
    var s := a + [c] + x;
    assert s[0] == if a == [] then c else a[0];
    assert s[0] == if b == [] then c else b[0];
    if a == [] {
      assert s[1..] == x && s[1..] == y;
    } else {
      assert s[0] == a[0] == b[0];
      assert s[1..] == a[1..] + [c] + x == b[1..] + [c] + y;
      CutCancel(a[1..], x, b[1..], y, c);
      assert a == [a[0]] + a[1..] && b == [b[0]] + b[1..];
    }
  }

  function Digit(d: nat): char
    requires d < 10
  {
    '0' + d as char
  }

  /** Decimal digits, as `format!` prints an unsigned number. */
  function Decimal(n: nat): (r: string)
    ensures r != [] && forall i :: 0 <= i < |r| ==> '0' <= r[i] <= '9'
  {
    if n < 10 then [Digit(n)] else Decimal(n / 10) + [Digit(n % 10)]
  }

  lemma {:induction false} DecimalInjective(m: nat, n: nat)
    requires Decimal(m) == Decimal(n)
    ensures m == n
  {
    var a, b := Decimal(m), Decimal(n);
    assert a[|a| - 1] == Digit(m % 10) && b[|b| - 1] == Digit(n % 10);
    if m >= 10 && n >= 10 {
      assert a[..|a| - 1] == Decimal(m / 10) && b[..|b| - 1] == Decimal(n / 10);
      DecimalInjective(m / 10, n / 10);
    }
  }

  /** The number that decimal digits stand for. */
  function NumberOf(digits: string): int {
    if digits == [] then 0 else 10 * NumberOf(digits[..|digits| - 1]) + (digits[|digits| - 1] as int - '0' as int)
  }

  /** Printed digits stand for the number, and have no leading zero. */
  lemma {:induction false} DecimalReads(n: nat)
    ensures NumberOf(Decimal(n)) == n && (Decimal(n)[0] == '0' ==> n == 0)
  {
    var d := Decimal(n);
    if n < 10 {
      assert NumberOf([Digit(n)]) == 10 * NumberOf([]) + n;
    } else {
      DecimalReads(n / 10);
      assert d[..|d| - 1] == Decimal(n / 10);
    }
  }

  predicate StartsWith(s: string, prefix: string) {
    prefix <= s
  }

  predicate Alphanumeric(c: char) {
    '0' <= c <= '9' || 'a' <= c <= 'z' || 'A' <= c <= 'Z'
  }
}

/** The names from which identifiers are made. */
module Naming {
  import opened Text

  predicate Component(s: string) {
    s != [] && forall i :: 0 <= i < |s| ==> Alphanumeric(s[i]) || s[i] == '-' || s[i] == '_'
  }

  predicate EndsWith(s: string, suffix: string) {
    |suffix| <= |s| && s[|s| - |suffix|..] == suffix
  }

  /** A namespace; apart from its two ends it may hold any characters. */
  predicate Namespace(s: string) {
    s == "services" || (StartsWith(s, "user-") && EndsWith(s, "-services"))
  }

  /** The system's namespace and those of users. The two ends may share their dash. */
  lemma NamespaceExactly(s: string)
    ensures Namespace(s) <==>
      s == "services" || s == "user-services" || exists user :: s == "user-" + user + "-services"
  {
    var a, b := "user-", "-services";
    if StartsWith(s, a) && EndsWith(s, b) {
      if |s| >= 14 {
        assert s == a + s[5..|s| - 9] + b;
      } else {
        SharedDash(s);
      }
    }
    if user :| s == "user-" + user + "-services" {
      assert s[|s| - 9..] == b;
    }
    assert StartsWith("user-services", a) && "user-services"[4..] == b;
  }

  lemma SharedDash(s: string)
    requires StartsWith(s, "user-") && EndsWith(s, "-services") && |s| < 14
    ensures s == "user-services"
  {
    var b := "-services";
    var k := |s| - 9;
    assert s[k] == b[0] && forall i :: k <= i < |s| ==> s[i] == b[i - k];
    assert s[..5] == "user-";
    assert s[0] == 'u' && s[1] == 's' && s[2] == 'e' && s[3] == 'r' && s[4] == '-';
    assert k == 4;
    assert s == s[..4] + s[4..];
  }
}
