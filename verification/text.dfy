/** Decimal numerals and dotted-quad IPv4 addresses as text. */
module Text {

  predicate HasNo(s: string, c: char) {
    forall i | 0 <= i < |s| :: s[i] != c
  }

  predicate IsDigit(c: char) {
    '0' <= c <= '9'
  }

  predicate AllDigits(s: string) {
    forall i | 0 <= i < |s| :: IsDigit(s[i])
  }

  /** Decimal numeral, no leading zeros. */
  function Decimal(n: nat): (s: string)
    ensures s != [] && AllDigits(s)
  {
    if n < 10 then ['0' + n as char] else Decimal(n / 10) + ['0' + (n % 10) as char]
  }

  function DecimalValue(s: string): nat
    requires AllDigits(s)
  {
    if s == [] then 0 else DecimalValue(s[..|s| - 1]) * 10 + (s[|s| - 1] as nat - '0' as nat)
  }

  lemma {:induction false} DecimalRoundTrip(n: nat)
    ensures DecimalValue(Decimal(n)) == n
  {
    if n >= 10 {
      DecimalRoundTrip(n / 10);
      var s := Decimal(n);
      assert s[..|s| - 1] == Decimal(n / 10);
    }
  }

  lemma DecimalInjective(m: nat, n: nat)
    ensures Decimal(m) == Decimal(n) ==> m == n
  {
    DecimalRoundTrip(m);
    DecimalRoundTrip(n);
  }

  function IntText(n: int): string {
    if n < 0 then "-" + Decimal(-n) else Decimal(n)
  }

  /** Index of the first `c`, or the length if there is none. */
  function Find(s: string, c: char): (i: nat)
    ensures i <= |s| && (forall j | 0 <= j < i :: s[j] != c) && (i < |s| ==> s[i] == c)
  {
    if s == [] || s[0] == c then 0 else 1 + Find(s[1..], c)
  }

  lemma {:induction false} FindAfter(a: string, x: string, c: char)
    requires HasNo(a, c)
    ensures Find(a + [c] + x, c) == |a|
  {
    if a == [] {
      assert (a + [c] + x)[0] == c;
    } else {
      assert (a + [c] + x)[1..] == a[1..] + [c] + x;
      FindAfter(a[1..], x, c);
    }
  }

  /** Text up to the first separator is determined by the whole. */
  lemma SplitUnique(a: string, b: string, x: string, y: string, c: char)
    requires HasNo(a, c) && HasNo(b, c) && a + [c] + x == b + [c] + y
    ensures a == b && x == y
  {
    FindAfter(a, x, c);
    FindAfter(b, y, c);
    var s, t := a + [c] + x, b + [c] + y;
    assert s[..|a|] == a && t[..|b|] == b && s[|a| + 1..] == x && t[|b| + 1..] == y;
  }

  /** str.rpartition(":") */
  function LastColon(s: string): int {
    if s == "" then -1 else if s[|s| - 1] == ':' then |s| - 1 else LastColon(s[..|s| - 1])
  }

  lemma {:induction false} LastColonIs(host: string, port: string)
    requires HasNo(port, ':')
    ensures LastColon(host + ":" + port) == |host|
  {
    var s := host + ":" + port;
    if port == "" {
      assert s[|s| - 1] == ':';
    } else {
      assert s[|s| - 1] == port[|port| - 1] && s[..|s| - 1] == host + ":" + port[..|port| - 1];
      LastColonIs(host, port[..|port| - 1]);
    }
  }

  const ADDRESS_SPACE: nat := 0x1_0000_0000
  const LOOPBACK: nat := 0x7F00_0001        // 127.0.0.1

  function Pair(c: nat, d: nat): string { Decimal(c) + "." + Decimal(d) }

  function Triple(b: nat, c: nat, d: nat): string { Decimal(b) + "." + Pair(c, d) }

  /** str(ipaddress.IPv4Address(n)) */
  function Dotted(n: nat): string
    requires n < ADDRESS_SPACE
  {
    Decimal(n / 0x100_0000) + "." + Triple(n / 0x1_0000 % 0x100, n / 0x100 % 0x100, n % 0x100)
  }

  lemma DigitsHaveNo(s: string, c: char)
    requires AllDigits(s) && !IsDigit(c)
    ensures HasNo(s, c)
  {
  }

  lemma PartUnique(m: nat, n: nat, x: string, y: string)
    requires Decimal(m) + "." + x == Decimal(n) + "." + y
    ensures m == n && x == y
  {
    DigitsHaveNo(Decimal(m), '.');
    DigitsHaveNo(Decimal(n), '.');
    SplitUnique(Decimal(m), Decimal(n), x, y, '.');
    DecimalInjective(m, n);
  }

  lemma PairUnique(c: nat, d: nat, c': nat, d': nat)
    requires Pair(c, d) == Pair(c', d')
    ensures c == c' && d == d'
  {
    PartUnique(c, c', Decimal(d), Decimal(d'));
    DecimalInjective(d, d');
  }

  lemma TripleUnique(b: nat, c: nat, d: nat, b': nat, c': nat, d': nat)
    requires Triple(b, c, d) == Triple(b', c', d')
    ensures b == b' && c == c' && d == d'
  {
    hide Pair; hide Decimal;
    PartUnique(b, b', Pair(c, d), Pair(c', d'));
    PairUnique(c, d, c', d');
  }

  lemma QuadUnique(a: nat, b: nat, c: nat, d: nat, a': nat, b': nat, c': nat, d': nat)
    requires Decimal(a) + "." + Triple(b, c, d) == Decimal(a') + "." + Triple(b', c', d')
    ensures a == a' && b == b' && c == c' && d == d'
  {
    hide Triple; hide Decimal;
    PartUnique(a, a', Triple(b, c, d), Triple(b', c', d'));
    TripleUnique(b, c, d, b', c', d');
  }

  lemma QuadValue(n: nat)
    ensures n == n / 0x100_0000 * 0x100_0000 + n / 0x1_0000 % 0x100 * 0x1_0000 + n / 0x100 % 0x100 * 0x100 + n % 0x100
  {
    assert n / 0x1_0000 == n / 0x100 / 0x100;
    assert n / 0x100_0000 == n / 0x1_0000 / 0x100;
  }

  lemma DottedInjective(m: nat, n: nat)
    requires m < ADDRESS_SPACE && n < ADDRESS_SPACE && Dotted(m) == Dotted(n)
    ensures m == n
  {
    QuadUnique(m / 0x100_0000, m / 0x1_0000 % 0x100, m / 0x100 % 0x100, m % 0x100,
      n / 0x100_0000, n / 0x1_0000 % 0x100, n / 0x100 % 0x100, n % 0x100) by { hide Decimal; }
    QuadValue(m);
    QuadValue(n);
  }

  lemma DottedChars(n: nat)
    requires n < ADDRESS_SPACE
    ensures Dotted(n) != [] && forall i | 0 <= i < |Dotted(n)| :: IsDigit(Dotted(n)[i]) || Dotted(n)[i] == '.'
  {
  }

  lemma LoopbackText()
    ensures Dotted(LOOPBACK) == "127.0.0.1"
  {
    LoopbackNumerals();
    assert LOOPBACK / 0x100_0000 == 127 && LOOPBACK / 0x1_0000 % 0x100 == 0;
    assert LOOPBACK / 0x100 % 0x100 == 0 && LOOPBACK % 0x100 == 1;
    hide Decimal;
  }

  lemma LoopbackNumerals()
    ensures Decimal(127) == "127" && Decimal(0) == "0" && Decimal(1) == "1"
  {
    assert Decimal(12) == "12";
    assert Decimal(127) == Decimal(12) + "7";
  }
}
