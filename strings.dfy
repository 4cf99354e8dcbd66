/** String and sequence helpers shared by the formatters: padding, `StringJoiner`-style
    joining, decimal rendering of integers (Java's `Long.toString`) and
    prefix removal. */
module Strings {

  /** `n` spaces, or none when `n` is not positive, as a padding loop that
      runs `for (i = 0; i < n; i++)` appends. */
  function Spaces(n: int): (r: string)
    ensures |r| == if n < 0 then 0 else n
    ensures forall i :: 0 <= i < |r| ==> r[i] == ' '
  {
    if n <= 0 then "" else Spaces(n - 1) + " "
  }

  /** Concatenation regroups freely. */
  lemma AppendAssoc<T>(a: seq<T>, b: seq<T>, c: seq<T>)
    ensures a + (b + c) == a + b + c
  {
  }

  /** What a `StringJoiner` with delimiter `sep` and empty prefix and suffix
      produces after `add`ing each of `parts` in turn. */
  function Join(parts: seq<string>, sep: string): string
  {
    if |parts| == 0 then ""
    else if |parts| == 1 then parts[0]
    else Join(parts[..|parts| - 1], sep) + sep + parts[|parts| - 1]
  }

  /** The total length of the parts. */
  function TotalLength(parts: seq<string>): nat
  {
    if |parts| == 0 then 0 else TotalLength(parts[..|parts| - 1]) + |parts[|parts| - 1]|
  }

  /** Joining `n >= 1` parts adds exactly `n - 1` separators. */
  lemma {:induction false} JoinLength(parts: seq<string>, sep: string)
    requires |parts| >= 1
    ensures |Join(parts, sep)| == TotalLength(parts) + (|parts| - 1) * |sep|
  {
    if |parts| > 1 {
      var init := parts[..|parts| - 1];
      JoinLength(init, sep);
      assert |Join(parts, sep)| == |Join(init, sep)| + |sep| + |parts[|parts| - 1]|;
      MulSucc(|init| - 1, |sep|);
    }
  }

  lemma MulSucc(n: int, k: int)
    ensures n * k + k == (n + 1) * k
  {
  }

  /** Joining one more part appends the separator and that part. */
  lemma JoinSnoc(parts: seq<string>, x: string, sep: string)
    requires |parts| >= 1
    ensures Join(parts + [x], sep) == Join(parts, sep) + sep + x
  {
    assert (parts + [x])[..|parts|] == parts;
  }

  /** The joined text starts with the first part. */
  lemma {:induction false} JoinFirst(parts: seq<string>, sep: string)
    requires |parts| >= 1
    ensures parts[0] <= Join(parts, sep)
  {
    if |parts| > 1 {
      var init := parts[..|parts| - 1];
      JoinFirst(init, sep);
      var j := Join(init, sep);
      assert Join(parts, sep) == j + (sep + parts[|parts| - 1]);
      assert j <= Join(parts, sep);
    }
  }

  predicate IsDigit(c: char)
  {
    '0' <= c <= '9'
  }

  predicate AllDigits(s: string)
  {
    forall i :: 0 <= i < |s| ==> IsDigit(s[i])
  }

  function DigitChar(d: nat): (c: char)
    requires d < 10
    ensures IsDigit(c)
  {
    "0123456789"[d]
  }

  function DigitValue(c: char): (d: nat)
    requires IsDigit(c)
    ensures d < 10
  {
    (c as int - '0' as int)
  }

  lemma DigitRoundTrip(d: nat)
    requires d < 10
    ensures DigitValue(DigitChar(d)) == d
  {
  }

  /** The decimal digits of `n`, most significant first, with no leading zero. */
  function NatToString(n: nat): (r: string)
    ensures |r| >= 1
    ensures AllDigits(r)
    ensures |r| > 1 ==> r[0] != '0'
  {
    if n < 10 then [DigitChar(n)] else NatToString(n / 10) + [DigitChar(n % 10)]
  }

  /** The value of a string of decimal digits. */
  function ParseNat(s: string): nat
    requires AllDigits(s)
  {
    if |s| == 0 then 0 else ParseNat(s[..|s| - 1]) * 10 + DigitValue(s[|s| - 1])
  }

  /** Reading back the rendering of `n` gives `n`. */
  lemma {:induction false} ParseNatToString(n: nat)
    ensures ParseNat(NatToString(n)) == n
  {
    var s := NatToString(n);
    if n < 10 {
      DigitRoundTrip(n);
    } else {
      ParseNatToString(n / 10);
      assert s[..|s| - 1] == NatToString(n / 10);
      DigitRoundTrip(n % 10);
    }
  }

  /** Leading zeros do not change the value of a digit string. */
  lemma {:induction false} ParseNatLeadingZeros(z: nat, s: string)
    requires AllDigits(s)
    ensures AllDigits(Zeros(z) + s)
    ensures ParseNat(Zeros(z) + s) == ParseNat(s)
  {
    if |s| == 0 {
      ParseNatZeros(z);
      assert Zeros(z) + s == Zeros(z);
    } else {
      var t := Zeros(z) + s;
      assert t[..|t| - 1] == Zeros(z) + s[..|s| - 1];
      ParseNatLeadingZeros(z, s[..|s| - 1]);
    }
  }

  lemma {:induction false} ParseNatZeros(z: nat)
    ensures ParseNat(Zeros(z)) == 0
  {
    if z > 0 {
      assert Zeros(z)[..z - 1] == Zeros(z - 1);
      ParseNatZeros(z - 1);
    }
  }

  /** `z` zero digits. */
  function Zeros(z: nat): (r: string)
    ensures |r| == z
    ensures forall i :: 0 <= i < z ==> r[i] == '0'
  {
    if z == 0 then "" else Zeros(z - 1) + "0"
  }

  /** Java's `Long.toString`: a minus sign for negative values, then the
      digits of the magnitude. */
  function IntToString(i: int): (r: string)
    ensures |r| >= 1
    ensures i < 0 <==> r[0] == '-'
  {
    (if i < 0 then "-" else "") + NatToString(if i < 0 then -i else i)
  }

  /** Reads back a rendering produced by `IntToString`. */
  function ParseInt(s: string): int
    requires |s| >= 1
    requires AllDigits(if s[0] == '-' then s[1..] else s)
  {
    if s[0] == '-' then -(ParseNat(s[1..]) as int) else ParseNat(s)
  }

  lemma IntToStringRoundTrip(i: int)
    ensures var r := IntToString(i);
      AllDigits(if r[0] == '-' then r[1..] else r) && ParseInt(r) == i
  {
    if i < 0 {
      NegativeRoundTrip(i, -i);
    } else {
      assert IntToString(i) == NatToString(i);
      ParseNatToString(i);
    }
  }

  lemma NegativeRoundTrip(i: int, n: nat)
    requires i < 0 && n == -i
    ensures var r := IntToString(i); r[0] == '-' && AllDigits(r[1..]) && ParseInt(r) == i
  {
    var r := IntToString(i);
    var d := NatToString(n);
    assert r == "-" + d;
    assert r[1..] == d;
    ParseNatToString(n);
  }

  /** The `removePrefix` URI formatter: strips `prefix` from `s` exactly when
      `s` starts with it, and otherwise returns `s` unchanged. */
  function RemovePrefix(prefix: string, s: string): (r: string)
    ensures prefix <= s ==> prefix + r == s
    ensures !(prefix <= s) ==> r == s
  {
    if prefix <= s then s[|prefix|..] else s
  }
}
