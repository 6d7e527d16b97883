/** Optional values, decimal numerals and the few string operations the services rely on. */
module Text {

  datatype Option<+T> = None | Some(value: T) {
    function GetOr(default: T): T {
      if None? then default else value
    }
  }

  function Last<T>(s: seq<T>): T
    requires s != []
  {
    s[|s| - 1]
  }

  function DropLast<T>(s: seq<T>): seq<T>
    requires s != []
  {
    s[..|s| - 1]
  }

  function Concat<T>(parts: seq<seq<T>>): seq<T> {
    if parts == [] then [] else parts[0] + Concat(parts[1..])
  }

  lemma {:induction false} ConcatAppend<T>(a: seq<seq<T>>, b: seq<seq<T>>)
    ensures Concat(a + b) == Concat(a) + Concat(b)
  {
    if a == [] {
      assert a + b == b;
    } else {
      assert (a + b)[0] == a[0] && (a + b)[1..] == a[1..] + b;
      ConcatAppend(a[1..], b);
    }
  }

  lemma PlusAssoc<T>(a: seq<T>, b: seq<T>, c: seq<T>)
    ensures (a + b) + c == a + (b + c)
  {
  }

  /** Two parts that are no longer than two others make up the same only if they are the same. */
  lemma SameParts<T>(a: seq<T>, a1: seq<T>, b: seq<T>, b1: seq<T>)
    requires |a| <= |b| && |a1| <= |b1|
    ensures a + a1 == b + b1 <==> a == b && a1 == b1
    ensures |a + a1| <= |b + b1|
  {
    if a + a1 == b + b1 {
      assert |a + a1| == |a| + |a1|;
      assert (a + a1)[..|a|] == a && (b + b1)[..|b|] == b;
      assert (a + a1)[|a|..] == a1 && (b + b1)[|b|..] == b1;
    }
  }

  lemma PlusNothing<T>(s: seq<T>)
    ensures s + [] == s && [] + s == s
  {
  }

  lemma SplitAgain<T>(a: seq<T>, b: seq<T>)
    ensures (a + b)[..|a|] == a && (a + b)[|a|..] == b
  {
  }

  lemma Tail<T>(x: T, s: seq<T>)
    ensures ([x] + s)[0] == x && ([x] + s)[1..] == s
  {
  }

  lemma HeadTail<T>(s: seq<T>)
    requires s != []
    ensures [s[0]] + s[1..] == s
  {
  }

  lemma InTail<T>(s: seq<T>, i: nat)
    requires 1 <= i < |s|
    ensures s[1..][i - 1] == s[i]
  {
  }

  ghost predicate Injective<K(!new), V>(f: K -> V) {
    forall a, b :: f(a) == f(b) ==> a == b
  }

  // ----- decimal numerals

  predicate IsDigit(c: char) {
    '0' <= c <= '9'
  }

  predicate AllDigits(s: string) {
    forall i :: 0 <= i < |s| ==> IsDigit(s[i])
  }

  function Digit(n: nat): (c: char)
    requires n < 10
    ensures IsDigit(c)
  {
    '0' + n as char
  }

  /** The decimal numeral of a counter, as string interpolation prints it. */
  function Decimal(n: nat): string {
    if n < 10 then [Digit(n)] else Decimal(n / 10) + [Digit(n % 10)]
  }

  /** The number a digit string denotes. */
  function DigitsValue(s: string): nat
    requires AllDigits(s)
  {
    if s == [] then 0 else 10 * DigitsValue(DropLast(s)) + (Last(s) - '0') as nat
  }

  lemma {:induction false} DecimalReadsBack(n: nat)
    ensures Decimal(n) != [] && AllDigits(Decimal(n)) && DigitsValue(Decimal(n)) == n
  {
    if n < 10 {
      assert DropLast([Digit(n)]) == [];
    } else {
      DecimalReadsBack(n / 10);
      assert DropLast(Decimal(n)) == Decimal(n / 10);
    }
  }

  lemma DecimalInjective(m: nat, n: nat)
    requires Decimal(m) == Decimal(n)
    ensures m == n
  {
    DecimalReadsBack(m);
    DecimalReadsBack(n);
  }

  lemma NumeralStart(p: string, n: nat)
    ensures var s := p + "_" + Decimal(n);
            && s[|p|] == '_' && s[..|p|] == p && s[|p| + 1..] == Decimal(n)
            && forall k :: |p| < k < |s| ==> s[k] != '_'
  {
    DecimalReadsBack(n);
    var s := p + "_" + Decimal(n);
    assert forall k :: |p| < k < |s| ==> IsDigit(s[k]);
  }

  /** A numeral after an underscore can be split off again: both halves are determined. */
  lemma SuffixedNumeral(p: string, m: nat, q: string, n: nat)
    requires p + "_" + Decimal(m) == q + "_" + Decimal(n)
    ensures p == q && m == n
  {
    NumeralStart(p, m);
    NumeralStart(q, n);
    assert |p| == |q|;
    DecimalInjective(m, n);
  }

  // ----- reading a number

  predicate IsSpace(c: char) {
    c == ' ' || '\t' <= c <= '\r'
  }

  function TrimStart(s: string): string {
    if s != [] && IsSpace(s[0]) then TrimStart(s[1..]) else s
  }

  function TrimEnd(s: string): string {
    if s != [] && IsSpace(Last(s)) then TrimEnd(DropLast(s)) else s
  }

  /** 32-bit int parsing: surrounding white space and one sign are allowed, overflow is a failure. */
  function ParseInt(s: string): Option<int> {
    var t := TrimEnd(TrimStart(s));
    var negative := t != [] && t[0] == '-';
    var digits := if t != [] && (t[0] == '-' || t[0] == '+') then t[1..] else t;
    if digits == [] || !AllDigits(digits) then None
    else
      var v: int := DigitsValue(digits);
      var n: int := if negative then 0 - v else v;
      if -0x8000_0000 <= n < 0x8000_0000 then Some(n) else None
  }

  lemma ReadsOne()
    ensures ParseInt("1") == Some(1)
  {
    assert TrimStart("1") == "1" && TrimEnd("1") == "1";
    assert DropLast("1") == "" && DigitsValue("1") == 10 * DigitsValue("") + 1;
  }

  // ----- substrings

  function IndexOf(s: string, c: char): (i: int)
    ensures -1 <= i < |s|
    ensures i >= 0 ==> s[i] == c && c !in s[..i]
    ensures i == -1 ==> c !in s
  {
    if s == [] then -1
    else if s[0] == c then 0
    else
      var i := IndexOf(s[1..], c);
      assert i >= 0 ==> s[..i + 1] == [s[0]] + s[1..][..i];
      if i == -1 then -1 else i + 1
  }
}
