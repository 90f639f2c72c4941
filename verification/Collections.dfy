/** Small facts about numbers, sequences and maps. */
module Collections {

  function Min(a: nat, b: nat): nat {
    if a < b then a else b
  }

  lemma MulMono(a: int, b: int, m: nat)
    requires a <= b
    ensures a * m <= b * m
  {
    assert (b - a) * m >= 0;
    assert (b - a) * m == b * m - a * m;
  }

  function Without<K, V>(m: map<K, V>, k: K): map<K, V> {
    map x | x in m && x != k :: m[x]
  }

  function RemoveAt<T>(s: seq<T>, i: nat): seq<T>
    requires i < |s|
  {
    s[..i] + s[i + 1..]
  }

  predicate Distinct<T(==)>(s: seq<T>) {
    forall i, j | 0 <= i < j < |s| :: s[i] != s[j]
  }

  /** How often `x` occurs. */
  function Times<T(==)>(s: seq<T>, x: T): nat {
    if s == [] then 0 else (if s[0] == x then 1 else 0) + Times(s[1..], x)
  }

  lemma {:induction false} TimesAppend<T>(s: seq<T>, t: seq<T>, x: T)
    ensures Times(s + t, x) == Times(s, x) + Times(t, x)
  {
    if s == [] {
      assert s + t == t;
    } else {
      TimesAppend(s[1..], t, x);
      assert (s + t)[1..] == s[1..] + t;
    }
  }

  lemma TimesOne<T>(y: T, x: T)
    ensures Times([y], x) == if y == x then 1 else 0
  {
  }

  // ----- counting

  function Elements<T(==)>(s: seq<T>): set<T> {
    set x | x in s
  }

  lemma {:induction false} DistinctCount<T>(s: seq<T>)
    requires Distinct(s)
    ensures |Elements(s)| == |s|
  {
    if s != [] {
      var p := s[..|s| - 1];
      DistinctCount(p);
      assert s == p + [s[|s| - 1]];
      assert Elements(s) == Elements(p) + {s[|s| - 1]};
    }
  }

  /** The numbers below `n`. */
  function UpTo(n: nat): (r: set<nat>)
    ensures |r| == n && forall j: nat :: j in r <==> j < n
  {
    if n == 0 then {} else UpTo(n - 1) + {n - 1}
  }

  lemma DisjointCount<T>(a: set<T>, b: set<T>)
    requires forall x | x in a :: x !in b
    ensures |a + b| == |a| + |b|
  {
    assert a * b == {};
  }

  /** A number below `n` is in exactly one of four sets, any other in none. */
  predicate InOne(n: nat, a: set<nat>, b: set<nat>, c: set<nat>, d: set<nat>, j: nat) {
    && (j < n <==> j in a || j in b || j in c || j in d)
    && !(j in a && j in b) && !(j in a && j in c) && !(j in a && j in d)
    && !(j in b && j in c) && !(j in b && j in d) && !(j in c && j in d)
  }

  /** Four disjoint sets that make up the numbers below `n`. */
  lemma FourParts(n: nat, a: set<nat>, b: set<nat>, c: set<nat>, d: set<nat>)
    requires forall j: nat :: InOne(n, a, b, c, d, j)
    ensures |a| + |b| + |c| + |d| == n
  {
    forall j: nat ensures j in a + b + c + d <==> j in UpTo(n) {
      assert InOne(n, a, b, c, d, j);
    }
    forall j: nat | j in a + b + c ensures !(j in a && j in b) && !(j in a + b && j in c) && j !in d {
      assert InOne(n, a, b, c, d, j);
    }
    DisjointCount(a, b);
    DisjointCount(a + b, c);
    DisjointCount(a + b + c, d);
    assert a + b + c + d == UpTo(n);
  }
}
