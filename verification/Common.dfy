/**
 Types and arithmetic shared by the models: fixed-width C++/Java integers, C++ division,
 finite sums over maps, and the order in which std::map and std::set are iterated.
 */
module Common {

  datatype Option<+T> = None | Some(value: T)

  newtype Byte = x: int | 0 <= x < 256

  type Int32 = x: int | -0x8000_0000 <= x < 0x8000_0000
  type Int16 = x: int | -0x8000 <= x < 0x8000

  /** The signed reading of a 32-bit pattern. */
  function Signed(b: bv32): (v: Int32) {
    var n := b as int;
    if n < 0x8000_0000 then n else n - 0x1_0000_0000
  }

  function Unsigned(v: Int32): int {
    if v < 0 then v + 0x1_0000_0000 else v
  }

  lemma BitsRoundTrip(a: bv32)
    ensures (a as int) as bv32 == a
  {
  }

  lemma UnsignedOfSigned(a: bv32)
    ensures Unsigned(Signed(a)) == a as int
  {
  }

  lemma SignedInjective(a: bv32, b: bv32)
    requires Signed(a) == Signed(b)
    ensures a == b
  {
    UnsignedOfSigned(a);
    UnsignedOfSigned(b);
    BitsRoundTrip(a);
    BitsRoundTrip(b);
  }

  /** C++ integer division: truncates toward zero. */
  function TruncDiv(a: int, b: int): int
    requires b != 0
  {
    if a >= 0 then (if b > 0 then a / b else -(a / -b))
    else (if b > 0 then -(-a / b) else -a / -b)
  }

  lemma QuotientAtLeast(a: int, b: int, q: int)
    requires a >= 0 && b > 0
    ensures a / b >= q <==> a >= q * b
  {
    var d := a / b;
    assert a == d * b + a % b;
    if d >= q {
      assert d * b >= q * b;
    } else {
      assert (d + 1) * b <= q * b;
    }
  }

  function Max(a: int, b: int): int {
    if a >= b then a else b
  }

  // ---------------------------------------------------------------- sums over maps

  ghost function MapSum<K>(m: map<K, int>): int
    decreases |m|
  {
    if m == map[] then 0
    else
      var k :| k in m;
      m[k] + MapSum(m - {k})
  }

  /** The sum does not depend on the order in which keys are taken. */
  lemma {:induction false} MapSumTake<K>(m: map<K, int>, k: K)
    requires k in m
    ensures MapSum(m) == m[k] + MapSum(m - {k})
    decreases |m|
  {
    var j :| j in m && MapSum(m) == m[j] + MapSum(m - {j});
    if j != k {
      MapSumTake(m - {j}, k);
      MapSumTake(m - {k}, j);
      assert m - {j} - {k} == m - {k} - {j};
    }
  }

  lemma MapSumUpdate<K>(m: map<K, int>, k: K, v: int)
    ensures MapSum(m[k := v]) == MapSum(m) + v - (if k in m then m[k] else 0)
  {
    MapSumTake(m[k := v], k);
    if k in m {
      MapSumTake(m, k);
      assert m[k := v] - {k} == m - {k};
    } else {
      assert m[k := v] - {k} == m;
    }
  }

  lemma {:induction false} MapSumNonNegative<K>(m: map<K, int>)
    requires forall k :: k in m ==> m[k] >= 0
    ensures MapSum(m) >= 0
    ensures MapSum(m) == 0 <==> forall k :: k in m ==> m[k] == 0
    decreases |m|
  {
    if m != map[] {
      var k :| k in m && MapSum(m) == m[k] + MapSum(m - {k});
      MapSumNonNegative(m - {k});
      assert forall j :: j in m ==> j == k || j in m - {k};
    }
  }

  // ---------------------------------------------------------------- iteration orders

  /** operator<= of std::string: lexicographic. */
  predicate StrLe(a: string, b: string) {
    a == "" || (b != "" && (a[0] < b[0] || (a[0] == b[0] && StrLe(a[1..], b[1..]))))
  }

  lemma {:induction false} StrLeTotal(a: string, b: string)
    ensures StrLe(a, b) || StrLe(b, a)
    ensures StrLe(a, b) && StrLe(b, a) ==> a == b
  {
    if a != "" && b != "" && a[0] == b[0] {
      StrLeTotal(a[1..], b[1..]);
      assert a == [a[0]] + a[1..] && b == [b[0]] + b[1..];
    }
  }

  lemma SamePrefix(a: string, b: string, i: nat)
    requires 0 < i <= |a| && i <= |b| && a[..i] == b[..i]
    ensures a[0] == b[0]
  {
    assert a[..i][0] == b[..i][0];
  }

  /** The order itself: a prefix comes first, and otherwise the smaller character where the strings part. */
  lemma {:induction false} StrLeExactly(a: string, b: string)
    ensures StrLe(a, b) <==> a <= b || exists i :: 0 <= i < |a| && i < |b| && a[..i] == b[..i] && a[i] < b[i]
  {
    if a != "" && b != "" && a[0] == b[0] {
      StrLeExactly(a[1..], b[1..]);
      assert a == [a[0]] + a[1..] && b == [b[0]] + b[1..];
      if i :| 0 <= i < |a| - 1 && i < |b| - 1 && a[1..][..i] == b[1..][..i] && a[1..][i] < b[1..][i] {
        assert a[..i + 1] == [a[0]] + a[1..][..i] && b[..i + 1] == [b[0]] + b[1..][..i];
      }
      if i :| 0 <= i < |a| && i < |b| && a[..i] == b[..i] && a[i] < b[i] {
        assert i > 0;
        assert a[1..][..i - 1] == a[..i][1..] && b[1..][..i - 1] == b[..i][1..];
      }
    } else if a != "" && b != "" && a[0] < b[0] {
      assert a[..0] == b[..0];
    } else if a != "" && b != "" {
      forall i | 0 <= i < |a| && i < |b| && a[..i] == b[..i]
        ensures i == 0
      {
        if i > 0 {
          SamePrefix(a, b, i);
          assert false;
        }
      }
    }
  }

  lemma {:induction false} StrLeTrans(a: string, b: string, c: string)
    requires StrLe(a, b) && StrLe(b, c)
    ensures StrLe(a, c)
  {
    if a != "" && b != "" && c != "" && a[0] == b[0] == c[0] {
      StrLeTrans(a[1..], b[1..], c[1..]);
    }
  }

  ghost predicate LeastStr(s: set<string>, m: string) {
    m in s && forall k :: k in s ==> StrLe(m, k)
  }

  /** A non-empty set of strings has a first element in iteration order. */
  lemma {:induction false} LeastStrExists(s: set<string>) returns (m: string)
    requires s != {}
    ensures LeastStr(s, m)
  {
    m :| m in s;
    StrLeTotal(m, m);
    if s != {m} {
      var r := s - {m};
      var n := LeastStrExists(r);
      StrLeTotal(m, n);
      var least := if StrLe(m, n) then m else n;
      forall k | k in s ensures StrLe(least, k) {
        if k in r && StrLe(m, n) {
          StrLeTrans(m, n, k);
        }
        if k == m { StrLeTotal(m, n); }
      }
      m := least;
    }
  }

  lemma Member<T>(s: set<T>) returns (x: T)
    requires s != {}
    ensures x in s
  {
    x :| x in s;
  }

  /** operator<= of int, on bit patterns. */
  predicate IspLe(a: bv32, b: bv32) {
    Signed(a) <= Signed(b)
  }

  ghost predicate LeastIsp(s: set<bv32>, m: bv32) {
    m in s && forall k :: k in s ==> IspLe(m, k)
  }

  lemma {:induction false} LeastIspExists(s: set<bv32>) returns (m: bv32)
    requires s != {}
    ensures LeastIsp(s, m)
  {
    hide Signed;
    m := Member(s);
    if s != {m} {
      var r := s - {m};
      var n := LeastIspExists(r);
      assert forall k :: k in s ==> k == m || k in r;
      assert forall k :: k in r ==> IspLe(n, k);
      if !IspLe(m, n) {
        m := n;
      }
    }
  }

  lemma LeastIspUnique(s: set<bv32>, a: bv32, b: bv32)
    requires LeastIsp(s, a) && LeastIsp(s, b)
    ensures a == b
  {
    SignedInjective(a, b);
  }

  lemma SomeLeastIsp(s: set<bv32>)
    requires s != {}
    ensures exists m :: LeastIsp(s, m)
  {
    hide LeastIsp, IspLe;
    var m := LeastIspExists(s);
  }

  /** The first element std::set<int> iterates over. */
  ghost function FirstIsp(s: set<bv32>): (m: bv32)
    requires s != {}
    ensures m in s
  {
    SomeLeastIsp(s);
    var m :| LeastIsp(s, m);
    m
  }

  /** Iteration over std::set<int>: the first element of those left. */
  method NextIsp(rest: set<bv32>) returns (isp: bv32)
    requires rest != {}
    ensures isp in rest && isp == FirstIsp(rest)
  {
    hide IspLe, FirstIsp;
    SomeLeastIsp(rest);
    isp :| isp in rest && forall k :: k in rest ==> IspLe(isp, k);
    FirstIspIs(rest, isp);
  }

  lemma FirstIspLeast(s: set<bv32>)
    requires s != {}
    ensures forall k :: k in s ==> Signed(FirstIsp(s)) <= Signed(k)
  {
    SomeLeastIsp(s);
  }

  lemma FirstIspIs(s: set<bv32>, m: bv32)
    requires LeastIsp(s, m)
    ensures FirstIsp(s) == m
  {
    var k :| LeastIsp(s, k) && FirstIsp(s) == k;
    LeastIspUnique(s, m, k);
  }

  lemma {:induction false} LeastInt(s: set<int>) returns (m: int)
    requires s != {}
    ensures m in s && forall j :: j in s ==> m <= j
  {
    m := Member(s);
    if s != {m} {
      var r := s - {m};
      var n := LeastInt(r);
      assert forall j :: j in s ==> j == m || j in r;
      if n < m {
        m := n;
      }
    }
  }
}
