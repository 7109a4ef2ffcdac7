/** Decimal rendering of integers and the small string operations the parser relies on. */
module Text {

  /** The character of a decimal digit. */
  function Digit(d: nat): (c: char)
    requires d < 10
    ensures '0' <= c <= '9'
    ensures c as int - '0' as int == d
  {
    ('0' as int + d) as char
  }

  predicate IsDigit(c: char) {
    '0' <= c <= '9'
  }

  /** Decimal text of a natural number, as Kotlin's `Int.toString()` writes it. */
  function NatText(n: nat): (s: string)
    ensures |s| >= 1
    ensures forall i :: 0 <= i < |s| ==> IsDigit(s[i])
    ensures (|s| == 1) == (n < 10)
    decreases n
  {
    if n < 10 then [Digit(n)] else NatText(n / 10) + [Digit(n % 10)]
  }

  /** Decimal text of an integer, with a leading '-' for negative values. */
  function IntText(i: int): (s: string)
    ensures |s| >= 1
    ensures (s[0] == '-') == (i < 0)
    ensures forall k :: (if i < 0 then 1 else 0) <= k < |s| ==> IsDigit(s[k])
    ensures i < 0 ==> |s| >= 2 && DigitsValue(s[1..]) == -i
    ensures i >= 0 ==> DigitsValue(s) == i
  {
    NatTextValue(if i < 0 then -i else i);
    if i < 0 then "-" + NatText(-i) else NatText(i)
  }

  /** The number a run of decimal digits denotes, most significant digit first. */
  function DigitsValue(s: string): int {
    if s == [] then 0 else 10 * DigitsValue(s[..|s| - 1]) + (s[|s| - 1] as int - '0' as int)
  }

  /** Reading back the decimal text of `n` gives `n`. */
  lemma {:induction false} NatTextValue(n: nat)
    ensures DigitsValue(NatText(n)) == n
    decreases n
  {
    var s := NatText(n);
    if n < 10 {
      assert s[..0] == [];
    } else {
      NatTextValue(n / 10);
      assert s[..|s| - 1] == NatText(n / 10);
    }
  }

  /** Different numbers have different decimal texts. */
  lemma {:induction false} NatTextInjective(a: nat, b: nat)
    requires NatText(a) == NatText(b)
    ensures a == b
  {
    if a >= 10 && b >= 10 {
      var s := NatText(a);
      assert s == NatText(a / 10) + [Digit(a % 10)];
      assert s == NatText(b / 10) + [Digit(b % 10)];
      assert NatText(a / 10) == s[..|s| - 1] == NatText(b / 10);
      NatTextInjective(a / 10, b / 10);
      assert Digit(a % 10) == s[|s| - 1] == Digit(b % 10);
    } else if a < 10 && b < 10 {
      assert Digit(a) == NatText(a)[0] == Digit(b);
    }
  }

  lemma IntTextInjective(a: int, b: int)
    requires IntText(a) == IntText(b)
    ensures a == b
  {
    if a < 0 {
      assert b < 0;
      assert NatText(-a) == IntText(a)[1..] == IntText(b)[1..] == NatText(-b);
      NatTextInjective(-a, -b);
    } else {
      assert b >= 0;
      NatTextInjective(a, b);
    }
  }

  predicate EndsWith(s: string, suffix: string) {
    |suffix| <= |s| && s[|s| - |suffix|..] == suffix
  }

  /** Kotlin's `removeSuffix`: drops `suffix` when `s` ends with it, else returns `s` unchanged. */
  function RemoveSuffix(s: string, suffix: string): (r: string)
    ensures EndsWith(s, suffix) ==> r + suffix == s
    ensures !EndsWith(s, suffix) ==> r == s
  {
    if EndsWith(s, suffix) then s[..|s| - |suffix|] else s
  }

  /** Removing a suffix undoes appending it. */
  lemma RemoveAppendedSuffix(t: string, suffix: string)
    ensures RemoveSuffix(t + suffix, suffix) == t
  {
    assert (t + suffix)[|t|..] == suffix;
  }

  /** Kotlin's `joinToString(separator)`. */
  function Join(parts: seq<string>, separator: string): (r: string)
    ensures parts == [] ==> r == ""
    ensures |parts| == 1 ==> r == parts[0]
  {
    if parts == [] then ""
    else if |parts| == 1 then parts[0]
    else Join(parts[..|parts| - 1], separator) + separator + parts[|parts| - 1]
  }

  /** The total length of `parts`. */
  function Width(parts: seq<string>): nat {
    if parts == [] then 0 else Width(parts[..|parts| - 1]) + |parts[|parts| - 1]|
  }

  /** Where part `i` starts in the joined text: after the parts before it and one separator each. */
  function Start(parts: seq<string>, separator: string, i: nat): nat
    requires i <= |parts|
  {
    Width(parts[..i]) + i * |separator|
  }

  /** Part `i` of `parts` sits in `r` at `Start(i)`. */
  predicate PartAt(r: string, parts: seq<string>, separator: string, i: nat)
    requires i < |parts|
  {
    Start(parts, separator, i) + |parts[i]| <= |r| &&
    r[Start(parts, separator, i)..Start(parts, separator, i) + |parts[i]|] == parts[i]
  }

  /** The separator sits in `r` right before part `i`. */
  predicate SeparatorAt(r: string, parts: seq<string>, separator: string, i: nat)
    requires 0 < i < |parts|
  {
    |separator| <= Start(parts, separator, i) <= |r| &&
    r[Start(parts, separator, i) - |separator|..Start(parts, separator, i)] == separator
  }

  predicate PartsAt(r: string, parts: seq<string>, separator: string) {
    forall i :: 0 <= i < |parts| ==> PartAt(r, parts, separator, i)
  }

  predicate SeparatorsAt(r: string, parts: seq<string>, separator: string) {
    forall i :: 0 < i < |parts| ==> SeparatorAt(r, parts, separator, i)
  }

  /**
   * `r` is `parts` laid out in order with `separator` between each two neighbours: part `i` sits at
   * `Start(i)`, the separator right before it, and nothing else is in `r`.
   */
  predicate Laid(r: string, parts: seq<string>, separator: string)
    requires parts != []
  {
    |r| == Width(parts) + (|parts| - 1) * |separator| &&
    PartsAt(r, parts, separator) && SeparatorsAt(r, parts, separator)
  }

  /** `joinToString` lays every part out in order, one separator between each two neighbours. */
  lemma {:induction false} JoinLayout(parts: seq<string>, separator: string)
    requires parts != []
    ensures Laid(Join(parts, separator), parts, separator)
  {
    var n := |parts|;
    if n == 1 {
      assert parts[..0] == [];
      assert parts[..1] == parts;
      assert Width(parts) == Width(parts[..0]) + |parts[0]|;
    } else {
      var init := parts[..n - 1];
      JoinLayout(init, separator);
      assert init + [parts[n - 1]] == parts;
      var prefix := Join(init, separator);
      WidthOfAppend(init, parts[n - 1]);
      AppendPartsAt(prefix, init, parts[n - 1], separator);
      AppendSeparatorsAt(prefix, init, parts[n - 1], separator);
    }
  }

  /** Appending a part moves none of the earlier parts. */
  lemma StartOfAppend(init: seq<string>, last: string, separator: string, i: nat)
    requires i <= |init|
    ensures Start(init + [last], separator, i) == Start(init, separator, i)
  {
    assert (init + [last])[..i] == init[..i];
  }

  lemma WidthOfAppend(init: seq<string>, last: string)
    ensures Width(init + [last]) == Width(init) + |last|
  {
    assert (init + [last])[..|init|] == init;
  }

  lemma AppendPartsAt(prefix: string, init: seq<string>, last: string, separator: string)
    requires init != []
    requires |prefix| == Width(init) + (|init| - 1) * |separator|
    requires PartsAt(prefix, init, separator)
    ensures PartsAt(prefix + separator + last, init + [last], separator)
  {
    var parts, r, n := init + [last], prefix + separator + last, |init| + 1;
    forall i | 0 <= i < n
      ensures PartAt(r, parts, separator, i)
    {
      PartAfterAppend(prefix, init, last, separator, i);
    }
  }

  lemma PartAfterAppend(prefix: string, init: seq<string>, last: string, separator: string, i: nat)
    requires init != [] && i <= |init|
    requires |prefix| == Width(init) + (|init| - 1) * |separator|
    requires PartsAt(prefix, init, separator)
    ensures PartAt(prefix + separator + last, init + [last], separator, i)
  {
    StartOfAppend(init, last, separator, i);
    if i < |init| {
      assert (init + [last])[i] == init[i];
      assert PartAt(prefix, init, separator, i);
      EarlierPartKept(prefix, init, last, separator, i);
    } else {
      assert (init + [last])[i] == last;
      LastPartPlaced(prefix, init, last, separator);
    }
  }

  lemma EarlierPartKept(prefix: string, init: seq<string>, last: string, separator: string, i: nat)
    requires i < |init|
    requires PartsAt(prefix, init, separator)
    ensures Start(init, separator, i) + |init[i]| <= |prefix|
    ensures (prefix + separator + last)[Start(init, separator, i)..Start(init, separator, i) + |init[i]|] == init[i]
  {
    assert PartAt(prefix, init, separator, i);
  }

  /** The new part starts one separator after the laid-out prefix. */
  lemma LastStart(prefix: string, init: seq<string>, last: string, separator: string)
    requires init != []
    requires |prefix| == Width(init) + (|init| - 1) * |separator|
    ensures Start(init + [last], separator, |init|) == |prefix| + |separator|
  {
    var n := |init|;
    StartOfAppend(init, last, separator, n);
    assert init[..n] == init;
    var w, k := Width(init), |separator|;
    assert Start(init, separator, n) == w + n * k;
    MulStep(n, k);
  }

  lemma MulStep(n: int, k: int)
    ensures n * k == (n - 1) * k + k
  {
  }

  lemma LastPartPlaced(prefix: string, init: seq<string>, last: string, separator: string)
    requires init != []
    requires |prefix| == Width(init) + (|init| - 1) * |separator|
    ensures Start(init + [last], separator, |init|) + |last| == |prefix + separator + last|
    ensures (prefix + separator + last)[Start(init + [last], separator, |init|)..Start(init + [last], separator, |init|) + |last|] == last
  {
    LastStart(prefix, init, last, separator);
    AppendedPieces(prefix, separator, last);
  }

  lemma AppendSeparatorsAt(prefix: string, init: seq<string>, last: string, separator: string)
    requires init != []
    requires |prefix| == Width(init) + (|init| - 1) * |separator|
    requires SeparatorsAt(prefix, init, separator)
    ensures SeparatorsAt(prefix + separator + last, init + [last], separator)
  {
    var parts, r, n := init + [last], prefix + separator + last, |init| + 1;
    forall i | 0 < i < n
      ensures SeparatorAt(r, parts, separator, i)
    {
      StartOfAppend(init, last, separator, i);
      if i < n - 1 {
        EarlierSeparatorKept(prefix, init, last, separator, i);
      } else {
        LastStart(prefix, init, last, separator);
        AppendedPieces(prefix, separator, last);
      }
    }
  }

  lemma EarlierSeparatorKept(prefix: string, init: seq<string>, last: string, separator: string, i: nat)
    requires 0 < i < |init|
    requires SeparatorsAt(prefix, init, separator)
    ensures |separator| <= Start(init, separator, i) <= |prefix|
    ensures (prefix + separator + last)[Start(init, separator, i) - |separator|..Start(init, separator, i)] == separator
  {
    assert SeparatorAt(prefix, init, separator, i);
  }

  /** Where the separator and the new part sit in `prefix + separator + last`. */
  lemma AppendedPieces(prefix: string, separator: string, last: string)
    ensures (prefix + separator + last)[|prefix|..|prefix| + |separator|] == separator
    ensures (prefix + separator + last)[|prefix| + |separator|..|prefix| + |separator| + |last|] == last
  {
  }
}
