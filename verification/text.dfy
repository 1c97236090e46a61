/**
 Character-level building blocks shared by every formatter: decimal rendering
 of natural numbers (Rust's `Display` for unsigned values), zero padding to
 width four (`{:04}`), joining with a separator, and the sentence terminator
 rule of the APA title and container clauses.
 */
module Text {
  import opened Options

  const EnDash: char := '–'

  predicate IsDigit(ch: char) {
    '0' <= ch <= '9'
  }

  predicate AllDigits(s: string) {
    forall i :: 0 <= i < |s| ==> IsDigit(s[i])
  }

  function DigitChar(d: nat): (ch: char)
    requires d < 10
    ensures IsDigit(ch)
  {
    (('0' as int) + d) as char
  }

  function DigitValue(ch: char): (d: nat)
    requires IsDigit(ch)
    ensures d < 10
  {
    (ch as int) - ('0' as int)
  }

  function Pow10(k: nat): (p: nat)
    ensures p >= 1
  {
    if k == 0 then 1 else 10 * Pow10(k - 1)
  }

  /** Decimal rendering of `n`: no sign, no leading zero except for `0` itself. */
  function NatToString(n: nat): (s: string)
    ensures 1 <= |s|
    ensures AllDigits(s)
    ensures s[0] == '0' ==> n == 0
    decreases n
  {
    if n < 10 then [DigitChar(n)] else NatToString(n / 10) + [DigitChar(n % 10)]
  }

  /** The value of a string of decimal digits, most significant first. */
  function DecimalValue(s: string): nat
    requires AllDigits(s)
  {
    if |s| == 0 then 0 else DecimalValue(s[..|s| - 1]) * 10 + DigitValue(s[|s| - 1])
  }

  /** Reading back the decimal rendering gives the number again. */
  lemma {:induction false} DecimalRoundTrip(n: nat)
    ensures DecimalValue(NatToString(n)) == n
  {
    if n >= 10 {
      var s := NatToString(n);
      DecimalRoundTrip(n / 10);
      assert s[..|s| - 1] == NatToString(n / 10);
    }
  }

  /** A number below 10^k takes at most k digits. */
  lemma {:induction false} NatToStringShort(n: nat, k: nat)
    requires 1 <= k && n < Pow10(k)
    ensures |NatToString(n)| <= k
  {
    if n >= 10 {
      NatToStringShort(n / 10, k - 1);
    }
  }

  /** A zero-valued prefix does not change the value of a digit string. */
  lemma {:induction false} ZeroPrefix(z: string, d: string)
    requires AllDigits(z) && AllDigits(d) && DecimalValue(z) == 0
    ensures AllDigits(z + d)
    ensures DecimalValue(z + d) == DecimalValue(d)
  {
    var zd := z + d;
    if |d| == 0 {
      assert zd == z;
    } else {
      var d' := d[..|d| - 1];
      assert zd[..|zd| - 1] == z + d';
      ZeroPrefix(z, d');
    }
  }

  function Zeros(k: nat): (z: string)
    ensures |z| == k
    ensures AllDigits(z)
  {
    if k == 0 then "" else Zeros(k - 1) + "0"
  }

  /** Leading zeros do not change the value of a digit string. */
  lemma LeadingZeros(k: nat, d: string)
    requires AllDigits(d)
    ensures AllDigits(Zeros(k) + d)
    ensures DecimalValue(Zeros(k) + d) == DecimalValue(d)
  {
    ZerosValue(k);
    ZeroPrefix(Zeros(k), d);
  }

  lemma {:induction false} ZerosValue(k: nat)
    ensures DecimalValue(Zeros(k)) == 0
  {
    if k > 0 {
      ZerosValue(k - 1);
      assert Zeros(k)[..k - 1] == Zeros(k - 1);
      assert DecimalValue(Zeros(k)) == DecimalValue(Zeros(k - 1)) * 10 + DigitValue('0');
    }
  }

  /** `{:04}`: the decimal rendering of `n` left-padded with zeros to at least four characters. */
  function PadZero4(n: nat): (s: string)
    ensures 4 <= |s|
    ensures AllDigits(s)
    ensures DecimalValue(s) == n
    ensures n < 10000 ==> |s| == 4
    ensures |NatToString(n)| >= 4 ==> s == NatToString(n)
  {
    var d := NatToString(n);
    DecimalRoundTrip(n);
    FourDigitsAtMost(n);
    if |d| >= 4 then
      d
    else
      LeadingZeros(4 - |d|, d);
      Zeros(4 - |d|) + d
  }

  lemma FourDigitsAtMost(n: nat)
    ensures n < 10000 ==> |NatToString(n)| <= 4
  {
    if n < 10000 {
      assert Pow10(4) == 10000;
      NatToStringShort(n, 4);
    }
  }

  lemma AppendAssoc<T>(a: seq<T>, b: seq<T>, c: seq<T>)
    ensures a + (b + c) == (a + b) + c
  {
  }

  /** `xs` with `sep` between consecutive elements. */
  function Join(xs: seq<string>, sep: string): string {
    if |xs| == 0 then ""
    else if |xs| == 1 then xs[0]
    else Join(xs[..|xs| - 1], sep) + sep + xs[|xs| - 1]
  }

  /** Appending one clause to a running list: a separator only after an earlier clause. */
  lemma JoinSnoc(ps: seq<string>, x: string)
    ensures Join(ps + [x], ", ") == (if |ps| == 0 then "" else Join(ps, ", ") + ", ") + x
  {
    var qs := ps + [x];
    assert qs[..|qs| - 1] == ps;
    if |ps| == 0 {
      assert qs == [x];
    }
  }

  /**
   Building a list of up to three clauses by appending each present one,
   with ", " after an earlier one, gives the join of the present clauses.
   */
  lemma RunningJoin(a: Option<string>, b: Option<string>, c: Option<string>)
    ensures var res0 := if a.Some? then a.value else "";
      var res1 := if b.Some? then res0 + (if a.Some? then ", " else "") + b.value else res0;
      var res2 := if c.Some? then res1 + (if a.Some? || b.Some? then ", " else "") + c.value else res1;
      && Join(Present([a, b, c]), ", ") == res2
      && (|Present([a, b, c])| == 0 <==> a.None? && b.None? && c.None?)
  {
    PresentThree(a, b, c);
    var p1 := Present([a]);
    var p2 := Present([a, b]);
    var p3 := Present([a, b, c]);
    var res0 := if a.Some? then a.value else "";
    assert res0 == Join(p1, ", ") by {
      if a.Some? { assert p1 == [a.value]; }
    }
    var res1 := if b.Some? then res0 + (if a.Some? then ", " else "") + b.value else res0;
    assert res1 == Join(p2, ", ") by {
      if b.Some? { JoinSnoc(p1, b.value); }
    }
    var res2 := if c.Some? then res1 + (if a.Some? || b.Some? then ", " else "") + c.value else res1;
    assert res2 == Join(p3, ", ") by {
      if c.Some? { JoinSnoc(p2, c.value); }
    }
  }

  /** `xs` with `sep` after every element, the shape a push-in-a-loop builds. */
  function Suffixed(xs: seq<string>, sep: string): string {
    if |xs| == 0 then "" else Suffixed(xs[..|xs| - 1], sep) + xs[|xs| - 1] + sep
  }

  lemma {:induction false} SuffixedIsJoin(xs: seq<string>, sep: string)
    requires |xs| > 0
    ensures Suffixed(xs, sep) == Join(xs, sep) + sep
  {
    if |xs| > 1 {
      SuffixedIsJoin(xs[..|xs| - 1], sep);
    } else {
      assert xs[..0] == [];
    }
  }

  /** A character that occurs in no element and not in the separator does not occur in the join. */
  lemma {:induction false} JoinAvoids(xs: seq<string>, sep: string, ch: char)
    requires forall i :: 0 <= i < |xs| ==> ch !in xs[i]
    requires ch !in sep
    ensures multiset(Join(xs, sep))[ch] == 0
  {
    if |xs| > 1 {
      JoinAvoids(xs[..|xs| - 1], sep, ch);
      assert Join(xs, sep) == Join(xs[..|xs| - 1], sep) + sep + xs[|xs| - 1];
    }
  }

  /** The same for the join of a prefix of `xs`. */
  lemma JoinPrefixAvoids(xs: seq<string>, k: nat, sep: string, ch: char)
    requires k <= |xs|
    requires forall i :: 0 <= i < |xs| ==> ch !in xs[i]
    requires ch !in sep
    ensures multiset(Join(xs[..k], sep))[ch] == 0
  {
    var head := xs[..k];
    forall i | 0 <= i < |head| ensures ch !in head[i] {
      assert head[i] == xs[i];
    }
    JoinAvoids(head, sep, ch);
  }

  predicate EndsSentence(s: string) {
    |s| > 0 && (s[|s| - 1] == '?' || s[|s| - 1] == '.' || s[|s| - 1] == '!')
  }

  /**
   Appends a period unless the text already ends in `?`, `.` or `!`. An empty
   text is read as ending in a letter, so it becomes ".".
   */
  function Terminate(s: string): (r: string)
    ensures EndsSentence(r)
    ensures r == s || r == s + "."
    ensures r == s <==> EndsSentence(s)
  {
    var last := if |s| == 0 then 'a' else s[|s| - 1];
    if last != '?' && last != '.' && last != '!' then s + "." else s
  }

  function IndexOf(s: string, ch: char): (r: nat)
    ensures r <= |s|
    ensures r < |s| ==> s[r] == ch
    ensures forall i :: 0 <= i < r ==> s[i] != ch
  {
    if |s| == 0 then 0 else if s[0] == ch then 0 else 1 + IndexOf(s[1..], ch)
  }

  predicate StartsWith(s: string, p: string) {
    |p| <= |s| && s[..|p|] == p
  }

  predicate EndsWith(s: string, p: string) {
    |p| <= |s| && s[|s| - |p|..] == p
  }

  /** A string starts with its first part, and with every prefix of that. */
  lemma PrefixOfAppend(a: string, b: string)
    ensures StartsWith(a + b, a)
    ensures forall p :: StartsWith(a, p) ==> StartsWith(a + b, p)
  {
    assert (a + b)[..|a|] == a;
    forall p | StartsWith(a, p)
      ensures StartsWith(a + b, p)
    {
      assert (a + b)[..|p|] == a[..|p|];
    }
  }

  /** A text framed by a head and a tail starts with the head and ends with the tail. */
  lemma Framed(head: string, body: string, tail: string)
    ensures StartsWith(head + body + tail, head)
    ensures EndsWith(head + body + tail, tail)
  {
    var s := head + body + tail;
    assert s[..|head|] == head;
    assert s[|s| - |tail|..] == tail;
  }
}
