/** The world-state key scheme of the evidence chaincode: version `v` of the
    evidence item `id` is stored under `fmt.Sprintf("%s_%d", id, v)`. */
module Keys {

  predicate IsDigit(c: char) { '0' as int <= c as int <= '9' as int }

  function DigitChar(d: nat): (c: char)
    requires d < 10
    ensures IsDigit(c) && c as int - '0' as int == d
  {
    ['0', '1', '2', '3', '4', '5', '6', '7', '8', '9'][d]
  }

  function DigitValue(c: char): nat
    requires IsDigit(c)
  {
    c as int - '0' as int
  }

  /** Go's `%d` rendering of a non-negative integer: most significant digit
      first, no sign, no leading zero. */
  function Decimal(n: nat): (s: string)
    ensures |s| >= 1
    ensures forall i :: 0 <= i < |s| ==> IsDigit(s[i])
    ensures s[0] == '0' ==> n == 0
    ensures n < 10 <==> |s| == 1
  {
    if n < 10 then [DigitChar(n)] else Decimal(n / 10) + [DigitChar(n % 10)]
  }

  /** The numeric value of a string of decimal digits. */
  function DigitsValue(s: string): nat
    requires forall i :: 0 <= i < |s| ==> IsDigit(s[i])
  {
    if s == [] then 0
    else DigitsValue(s[..|s| - 1]) * 10 + DigitValue(s[|s| - 1])
  }

  /** Reading a decimal rendering back gives the number: `%d` loses nothing. */
  lemma {:induction false} DecimalRoundTrip(n: nat)
    ensures DigitsValue(Decimal(n)) == n
  {
    var s := Decimal(n);
    if n >= 10 {
      DecimalRoundTrip(n / 10);
      assert s[..|s| - 1] == Decimal(n / 10);
    }
  }

  lemma DecimalInjective(m: nat, n: nat)
    requires Decimal(m) == Decimal(n)
    ensures m == n
  {
    DecimalRoundTrip(m);
    DecimalRoundTrip(n);
  }

  /** The key `"%s_%d"` under which a version of an evidence item is stored. */
  function Key(evidenceID: string, version: nat): string
  {
    evidenceID + "_" + Decimal(version)
  }

  /** A key reads back as its parts: the evidence ID, the separator `_`,
      then only digits, whose value is the version. */
  lemma KeyParts(evidenceID: string, version: nat)
    ensures |Key(evidenceID, version)| > |evidenceID| + 1
    ensures Key(evidenceID, version)[..|evidenceID|] == evidenceID
    ensures Key(evidenceID, version)[|evidenceID|] == '_'
    ensures forall t :: |evidenceID| < t < |Key(evidenceID, version)| ==> IsDigit(Key(evidenceID, version)[t])
    ensures DigitsValue(Key(evidenceID, version)[|evidenceID| + 1..]) == version
  {
    var d := Decimal(version);
    DecimalRoundTrip(version);
    assert Key(evidenceID, version)[|evidenceID| + 1..] == d;
  }

  /** The key scheme is injective: the separator is the last `_` of a key,
      because a decimal rendering holds only digits, and the decimal
      rendering itself is injective. So two different evidence items never
      share a key, whatever underscores their identifiers contain. */
  lemma KeyInjective(a: string, m: nat, b: string, n: nat)
    requires Key(a, m) == Key(b, n)
    ensures a == b && m == n
  {
    var k := Key(a, m);
    var dm, dn := Decimal(m), Decimal(n);
    assert k == a + "_" + dm == b + "_" + dn;
    // the separator is the only non-digit after either candidate position
    assert k[|a|] == '_' && k[|b|] == '_';
    assert forall t :: |a| < t < |k| ==> IsDigit(k[t]);
    assert forall t :: |b| < t < |k| ==> IsDigit(k[t]);
    assert |a| == |b|;
    assert a == (a + "_" + dm)[..|a|] == k[..|a|] == (b + "_" + dn)[..|b|] == b;
    assert dm == (a + "_" + dm)[|a| + 1..] == (b + "_" + dn)[|b| + 1..] == dn;
    DecimalInjective(m, n);
  }

  lemma KeysDiffer(a: string, m: nat, b: string, n: nat)
    requires a != b || m != n
    ensures Key(a, m) != Key(b, n)
  {
    if Key(a, m) == Key(b, n) {
      KeyInjective(a, m, b, n);
    }
  }

  /** The keys of versions 1..n of one evidence item, as the version probe
      visits them. */
  function KeysUpTo(evidenceID: string, n: nat): (ks: set<string>)
  {
    if n == 0 then {} else KeysUpTo(evidenceID, n - 1) + {Key(evidenceID, n)}
  }

  lemma {:induction false} KeysUpToHolds(evidenceID: string, n: nat, j: nat)
    ensures Key(evidenceID, j) in KeysUpTo(evidenceID, n) <==> 1 <= j <= n
  {
    if n > 0 {
      KeysUpToHolds(evidenceID, n - 1, j);
      if Key(evidenceID, j) == Key(evidenceID, n) {
        KeyInjective(evidenceID, j, evidenceID, n);
      }
    }
  }
}
