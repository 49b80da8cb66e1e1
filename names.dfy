/**
 * Names of the Redis sorted sets that hold the delay buckets
 * (RedisDelayBucket's constructor and its instance-change listener).
 * A name is the prefix "ice:bucket", the bucket index in decimal and,
 * optionally, ":" followed by an instance name.
 */
module BucketNames {

  const Prefix: string := "ice:bucket"

  predicate IsDigit(c: char) {
    '0' <= c <= '9'
  }

  predicate IsDigits(s: string) {
    forall k :: 0 <= k < |s| ==> IsDigit(s[k])
  }

  function Digit(d: nat): (c: char)
    requires d < 10
    ensures IsDigit(c)
  {
    (('0' as int) + d) as char
  }

  function DigitValue(c: char): (d: nat)
    requires IsDigit(c)
    ensures d < 10
  {
    (c as int) - ('0' as int)
  }

  /** The decimal value of a string of digits: the reference the rendering is checked against. */
  function DecimalValue(s: string): nat
    requires IsDigits(s)
  {
    if s == [] then 0 else 10 * DecimalValue(s[..|s| - 1]) + DigitValue(s[|s| - 1])
  }

  /** Decimal rendering of a non-negative int, as Java's string concatenation writes it. */
  function NatToString(n: nat): (s: string)
    ensures |s| >= 1 && IsDigits(s)
  {
    if n < 10 then [Digit(n)] else NatToString(n / 10) + [Digit(n % 10)]
  }

  /** The rendering is the canonical decimal numeral of n: it reads back as n and has no leading zero. */
  lemma {:induction false} NatToStringValue(n: nat)
    ensures DecimalValue(NatToString(n)) == n
    ensures NatToString(n)[0] != '0' || n == 0
  {
    var s := NatToString(n);
    if n < 10 {
      assert s[..0] == [];
    } else {
      NatToStringValue(n / 10);
      assert s[..|s| - 1] == NatToString(n / 10);
      assert s[0] == NatToString(n / 10)[0];
    }
  }

  /** Different indexes render differently. */
  lemma NatToStringInjective(a: nat, b: nat)
    requires NatToString(a) == NatToString(b)
    ensures a == b
  {
    NatToStringValue(a);
    NatToStringValue(b);
  }

  /** "ice:bucket" + i: the name used under the default instance. */
  function PlainName(i: nat): string {
    Prefix + NatToString(i)
  }

  /** "ice:bucket" + i + ":" + instance. */
  function SuffixedName(i: nat, instance: string): string {
    Prefix + NatToString(i) + ":" + instance
  }

  /** The name the constructor gives bucket i. */
  function ConstructedName(i: nat, instanceName: string, defaultInstanceName: string): string {
    if instanceName == defaultInstanceName then PlainName(i) else SuffixedName(i, instanceName)
  }

  predicate Distinct(names: seq<string>) {
    forall i, j :: 0 <= i < j < |names| ==> names[i] != names[j]
  }

  lemma PlainNamesDistinct(i: nat, j: nat)
    requires i != j
    ensures PlainName(i) != PlainName(j)
  {
    if PlainName(i) == PlainName(j) {
      assert NatToString(i) == PlainName(i)[|Prefix|..];
      assert NatToString(j) == PlainName(j)[|Prefix|..];
      NatToStringInjective(i, j);
    }
  }

  lemma SuffixedNamesDistinct(i: nat, j: nat, instance: string)
    requires i != j
    ensures SuffixedName(i, instance) != SuffixedName(j, instance)
  {
    var di, dj := NatToString(i), NatToString(j);
    var x, y := SuffixedName(i, instance), SuffixedName(j, instance);
    if x == y {
      assert |x| == |Prefix| + |di| + 1 + |instance|;
      assert |y| == |Prefix| + |dj| + 1 + |instance|;
      var n := |Prefix| + |di|;
      assert x[|Prefix|..n] == di by {
        assert x == (Prefix + di) + (":" + instance);
        assert (Prefix + di)[|Prefix|..] == di;
      }
      assert y[|Prefix|..n] == dj by {
        assert y == (Prefix + dj) + (":" + instance);
        assert (Prefix + dj)[|Prefix|..] == dj;
      }
      NatToStringInjective(i, j);
    }
  }

  /** The constructor's names are pairwise distinct, with or without the suffix. */
  lemma ConstructedNamesDistinct(i: nat, j: nat, instanceName: string, defaultInstanceName: string)
    requires i != j
    ensures ConstructedName(i, instanceName, defaultInstanceName) != ConstructedName(j, instanceName, defaultInstanceName)
  {
    if instanceName == defaultInstanceName {
      PlainNamesDistinct(i, j);
    } else {
      SuffixedNamesDistinct(i, j, instanceName);
    }
  }

  /**
   * No suffixed name is a plain name: after an instance change, even to the
   * default instance name, no bucket keeps a name the default-instance
   * constructor gave.
   */
  lemma PlainNeverSuffixed(i: nat, j: nat, instance: string)
    ensures PlainName(i) != SuffixedName(j, instance)
  {
    var dj := NatToString(j);
    assert SuffixedName(j, instance)[|Prefix| + |dj|] == ':';
  }
}
