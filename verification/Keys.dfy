/**
 The printf-built string keys of the caches, the pend list and the group index.
 Everything else may then treat such a key as the tuple of ints it was printed from.
 */
module Keys {
  import opened Common

  /** A client's request: two users, each with an ISP mask and an area. */
  datatype Quad = Quad(isp1: bv32, area1: Int32, isp2: bv32, area2: Int32)

  function Digits(n: nat): (s: string) {
    if n < 10 then ['0' + n as char] else Digits(n / 10) + ['0' + (n % 10) as char]
  }

  /** printf("%d", n) */
  function Decimal(n: int): string {
    if n < 0 then "-" + Digits(-n) else Digits(n)
  }

  /** printf("%d:%d", isp, area) */
  function IspAreaKey(isp: bv32, area: Int32): string {
    Decimal(Signed(isp)) + ":" + Decimal(area)
  }

  /** printf("%d", isp) */
  function IspKey(isp: bv32): string {
    Decimal(Signed(isp))
  }

  /** printf("%d:%d:%d:%d", isp1, area1, isp2, area2) */
  function QuadKey(q: Quad): string {
    Decimal(Signed(q.isp1)) + ":" + (Decimal(q.area1) + ":" + (Decimal(Signed(q.isp2)) + ":" + Decimal(q.area2)))
  }

  ghost predicate NumberChars(s: string) {
    forall i :: 0 <= i < |s| ==> s[i] == '-' || '0' <= s[i] <= '9'
  }

  lemma {:induction false} DigitsShape(n: nat)
    ensures |Digits(n)| >= 1
    ensures forall i :: 0 <= i < |Digits(n)| ==> '0' <= Digits(n)[i] <= '9'
  {
    if n >= 10 {
      DigitsShape(n / 10);
    }
  }

  lemma {:induction false} DigitsInjective(a: nat, b: nat)
    requires Digits(a) == Digits(b)
    ensures a == b
  {
    DigitsShape(a / 10);
    DigitsShape(b / 10);
    var s, t := Digits(a), Digits(b);
    assert s[|s| - 1] == '0' + (a % 10) as char;
    assert t[|t| - 1] == '0' + (b % 10) as char;
    if a >= 10 && b >= 10 {
      assert s[..|s| - 1] == Digits(a / 10) && t[..|t| - 1] == Digits(b / 10);
      DigitsInjective(a / 10, b / 10);
    }
  }

  lemma {:induction false} DigitsLength(n: nat, k: nat, bound: nat)
    requires k >= 1 && n < bound && bound == Pow10(k)
    ensures |Digits(n)| <= k
  {
    if n >= 10 {
      DigitsLength(n / 10, k - 1, bound / 10);
    }
  }

  function Pow10(k: nat): nat {
    if k == 0 then 1 else 10 * Pow10(k - 1)
  }

  lemma DecimalShape(n: int)
    ensures NumberChars(Decimal(n)) && |Decimal(n)| >= 1
  {
    DigitsShape(if n < 0 then -n else n);
  }

  lemma DecimalInjective(a: int, b: int)
    requires Decimal(a) == Decimal(b)
    ensures a == b
  {
    var x, y := if a < 0 then -a else a, if b < 0 then -b else b;
    DigitsShape(x);
    DigitsShape(y);
    if a < 0 && b < 0 {
      assert Decimal(a)[1..] == Digits(x) && Decimal(b)[1..] == Digits(y);
    }
    assert (a < 0) == (Decimal(a)[0] == '-') && (b < 0) == (Decimal(b)[0] == '-');
    DigitsInjective(x, y);
  }

  lemma DecimalLength(n: Int32)
    ensures |Decimal(n)| <= 11
  {
    assert Pow10(10) == 10_000_000_000;
    var value: int := n;
    DigitsLength(if value < 0 then -value else value, 10, 10_000_000_000);
  }

  /** The first colon splits a key in exactly one way. */
  lemma SplitAtColon(u: string, v: string, x: string, y: string)
    requires NumberChars(u) && NumberChars(v)
    requires u + ":" + x == v + ":" + y
    ensures u == v && x == y
  {
    var s, t := u + ":" + x, v + ":" + y;
    assert s[|u|] == ':' && t[|v|] == ':';
    assert forall i :: 0 <= i < |u| ==> s[i] == u[i] != ':';
    assert forall i :: 0 <= i < |v| ==> t[i] == v[i] != ':';
    assert u == s[..|u|] == t[..|v|] == v;
    assert x == s[|u| + 1..] == t[|v| + 1..] == y;
  }

  lemma FieldInjective(a: int, b: int, x: string, y: string)
    requires Decimal(a) + ":" + x == Decimal(b) + ":" + y
    ensures a == b && x == y
  {
    DecimalShape(a);
    DecimalShape(b);
    SplitAtColon(Decimal(a), Decimal(b), x, y);
    DecimalInjective(a, b);
  }

  /** Two requests share a cache list and a pend set only when they are the same request. */
  lemma QuadKeyInjective(p: Quad, q: Quad)
    requires QuadKey(p) == QuadKey(q)
    ensures p == q
  {
    var p3, q3 := Decimal(Signed(p.isp2)) + ":" + Decimal(p.area2), Decimal(Signed(q.isp2)) + ":" + Decimal(q.area2);
    var p2, q2 := Decimal(p.area1) + ":" + p3, Decimal(q.area1) + ":" + q3;
    FieldInjective(Signed(p.isp1), Signed(q.isp1), p2, q2);
    FieldInjective(p.area1, q.area1, p3, q3);
    FieldInjective(Signed(p.isp2), Signed(q.isp2), Decimal(p.area2), Decimal(q.area2));
    DecimalInjective(p.area2, q.area2);
    SignedInjective(p.isp1, q.isp1);
    SignedInjective(p.isp2, q.isp2);
  }

  /** The key and its terminator fit the 64-byte buffer it is printed into. */
  lemma QuadKeyLength(q: Quad)
    ensures |QuadKey(q)| <= 47
  {
    DecimalLength(Signed(q.isp1));
    DecimalLength(q.area1);
    DecimalLength(Signed(q.isp2));
    DecimalLength(q.area2);
  }

  lemma IspKeyInjective(i: bv32, j: bv32)
    requires IspKey(i) == IspKey(j)
    ensures i == j
  {
    DecimalInjective(Signed(i), Signed(j));
    SignedInjective(i, j);
  }

  lemma IspAreaKeyInjective(i: bv32, a: Int32, j: bv32, b: Int32)
    requires IspAreaKey(i, a) == IspAreaKey(j, b)
    ensures i == j && a == b
  {
    FieldInjective(Signed(i), Signed(j), Decimal(a), Decimal(b));
    DecimalInjective(a, b);
    SignedInjective(i, j);
  }

  /** ISP lists and isp:area lists live in one map and never meet. */
  lemma IndexKeysApart(i: bv32, j: bv32, b: Int32)
    ensures IspKey(i) != IspAreaKey(j, b)
  {
    hide Decimal, Signed;
    DecimalShape(Signed(i));
    assert IspAreaKey(j, b)[|Decimal(Signed(j))|] == ':';
  }
}
