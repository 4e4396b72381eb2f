/**
 * LINQ's OrderBy(key) followed by ToList(): a stable sort of a sequence by a
 * string key under a string comparer. The comparer the source uses is the
 * default culture-sensitive one; all the model assumes of it is that it is a
 * total preorder (every two keys compare, and comparison is transitive).
 * Ordinal comparison, defined at the end, is one such comparer.
 */
module Ordering {

  ghost predicate TotalPreorder(le: (string, string) -> bool) {
    && (forall a, b :: le(a, b) || le(b, a))
    && (forall a, b, c :: le(a, b) && le(b, c) ==> le(a, c))
  }

  /** Two keys the comparer ranks equal (Compare returns 0). */
  predicate Equivalent(le: (string, string) -> bool, a: string, b: string) {
    le(a, b) && le(b, a)
  }

  /** Ascending by key: every earlier element's key is at most every later one's. */
  ghost predicate Sorted<T>(s: seq<T>, key: T -> string, le: (string, string) -> bool) {
    forall i, j | 0 <= i < j < |s| :: le(key(s[i]), key(s[j]))
  }

  /** The elements of s whose key the comparer ranks equal to k, in their order in s. */
  function WithKey<T>(s: seq<T>, key: T -> string, le: (string, string) -> bool, k: string): seq<T>
  {
    if s == [] then []
    else (if Equivalent(le, key(s[0]), k) then [s[0]] else []) + WithKey(s[1..], key, le, k)
  }

  /** Places x before the first element whose key is not below x's key. */
  function Insert<T>(x: T, s: seq<T>, key: T -> string, le: (string, string) -> bool): (r: seq<T>)
    ensures multiset(r) == multiset(s) + multiset{x}
  {
    if s == [] || le(key(x), key(s[0])) then [x] + s
    else
      var r := [s[0]] + Insert(x, s[1..], key, le);
      assert s == [s[0]] + s[1..];
      r
  }

  /** xs.OrderBy(key, le).ToList() */
  function OrderBy<T>(s: seq<T>, key: T -> string, le: (string, string) -> bool): (r: seq<T>)
    ensures multiset(r) == multiset(s)
  {
    if s == [] then []
    else
      var r := Insert(s[0], OrderBy(s[1..], key, le), key, le);
      assert s == [s[0]] + s[1..];
      r
  }

  /** Every key of Insert(x, s) is at least b when x's key and every key of s are. */
  lemma {:induction false} InsertBounded<T>(x: T, s: seq<T>, key: T -> string, le: (string, string) -> bool, b: string)
    requires le(b, key(x))
    requires forall i | 0 <= i < |s| :: le(b, key(s[i]))
    ensures forall i | 0 <= i < |Insert(x, s, key, le)| :: le(b, key(Insert(x, s, key, le)[i]))
  {
    if s != [] && !le(key(x), key(s[0])) {
      InsertBounded(x, s[1..], key, le, b);
      var tail := Insert(x, s[1..], key, le);
      var r := [s[0]] + tail;
      assert Insert(x, s, key, le) == r;
      forall i | 0 <= i < |r| ensures le(b, key(r[i])) {
        if i > 0 {
          assert r[i] == tail[i - 1];
        } else {
          assert r[i] == s[0];
        }
      }
    }
  }

  lemma {:induction false} InsertSorted<T>(x: T, s: seq<T>, key: T -> string, le: (string, string) -> bool)
    requires TotalPreorder(le)
    requires Sorted(s, key, le)
    ensures Sorted(Insert(x, s, key, le), key, le)
  {
    if s == [] || le(key(x), key(s[0])) {
      var r := [x] + s;
      forall i, j | 0 <= i < j < |r| ensures le(key(r[i]), key(r[j])) {
        if i == 0 && j > 1 {
          assert le(key(s[0]), key(s[j - 1]));
        }
      }
    } else {
      var tail := Insert(x, s[1..], key, le);
      InsertSorted(x, s[1..], key, le);
      assert le(key(s[0]), key(x));
      forall i | 0 <= i < |s[1..]| ensures le(key(s[0]), key(s[1..][i])) {
        assert s[1..][i] == s[i + 1];
      }
      InsertBounded(x, s[1..], key, le, key(s[0]));
      var r := [s[0]] + tail;
      assert Insert(x, s, key, le) == r;
      forall i, j | 0 <= i < j < |r| ensures le(key(r[i]), key(r[j])) {
        assert r[j] == tail[j - 1];
        if i > 0 {
          assert r[i] == tail[i - 1];
        } else {
          assert r[i] == s[0];
        }
      }
    }
  }

  /** The ordered list is sorted ascending by key. */
  lemma {:induction false} OrderBySorted<T>(s: seq<T>, key: T -> string, le: (string, string) -> bool)
    requires TotalPreorder(le)
    ensures Sorted(OrderBy(s, key, le), key, le)
  {
    if s != [] {
      OrderBySorted(s[1..], key, le);
      InsertSorted(s[0], OrderBy(s[1..], key, le), key, le);
    }
  }

  lemma {:induction false} WithKeyAppend<T>(a: seq<T>, b: seq<T>, key: T -> string, le: (string, string) -> bool, k: string)
    ensures WithKey(a + b, key, le, k) == WithKey(a, key, le, k) + WithKey(b, key, le, k)
  {
    if a == [] {
      assert a + b == b;
    } else {
      var ab := a + b;
      assert ab[0] == a[0] && ab[1..] == a[1..] + b;
      WithKeyAppend(a[1..], b, key, le, k);
      var head := if Equivalent(le, key(a[0]), k) then [a[0]] else [];
      var x, y := WithKey(a[1..], key, le, k), WithKey(b, key, le, k);
      assert WithKey(ab, key, le, k) == head + (x + y);
      assert head + (x + y) == (head + x) + y;
    }
  }

  /** Inserting x adds x in front of the elements ranked equal to it: it passes none of them. */
  lemma {:induction false} InsertStable<T>(x: T, s: seq<T>, key: T -> string, le: (string, string) -> bool, k: string)
    requires TotalPreorder(le)
    ensures WithKey(Insert(x, s, key, le), key, le, k)
         == (if Equivalent(le, key(x), k) then [x] else []) + WithKey(s, key, le, k)
  {
    if s == [] || le(key(x), key(s[0])) {
      WithKeyAppend([x], s, key, le, k);
    } else {
      var tail := Insert(x, s[1..], key, le);
      assert Insert(x, s, key, le) == [s[0]] + tail;
      assert [s[0]] + s[1..] == s;
      InsertStable(x, s[1..], key, le, k);
      WithKeyAppend([s[0]], tail, key, le, k);
      WithKeyAppend([s[0]], s[1..], key, le, k);
      var first := WithKey([s[0]], key, le, k);
      var mine := if Equivalent(le, key(x), k) then [x] else [];
      var rest := WithKey(s[1..], key, le, k);
      // x passes s[0] only when s[0] ranks strictly below x, so at most one of them ranks equal to k.
      if Equivalent(le, key(x), k) && Equivalent(le, key(s[0]), k) {
        assert false;
      }
      if mine == [] {
        assert first + (mine + rest) == mine + (first + rest);
      } else {
        assert first == [];
        assert first + (mine + rest) == mine + (first + rest);
      }
    }
  }

  /** OrderBy is stable: elements ranked equal keep their relative order from the input. */
  lemma {:induction false} OrderByStable<T>(s: seq<T>, key: T -> string, le: (string, string) -> bool, k: string)
    requires TotalPreorder(le)
    ensures WithKey(OrderBy(s, key, le), key, le, k) == WithKey(s, key, le, k)
  {
    if s != [] {
      OrderByStable(s[1..], key, le, k);
      InsertStable(s[0], OrderBy(s[1..], key, le), key, le, k);
    }
  }

  /** Ordinal comparison: the code points of the two strings, compared left to right. */
  predicate OrdinalLe(a: string, b: string)
    decreases |a|
  {
    |a| == 0 || (|b| > 0 && (a[0] < b[0] || (a[0] == b[0] && OrdinalLe(a[1..], b[1..]))))
  }

  lemma {:induction false} OrdinalTotal(a: string, b: string)
    ensures OrdinalLe(a, b) || OrdinalLe(b, a)
    decreases |a|
  {
    if |a| > 0 && |b| > 0 && a[0] == b[0] {
      OrdinalTotal(a[1..], b[1..]);
    }
  }

  lemma {:induction false} OrdinalTransitive(a: string, b: string, c: string)
    requires OrdinalLe(a, b) && OrdinalLe(b, c)
    ensures OrdinalLe(a, c)
    decreases |a|
  {
    if |a| > 0 && a[0] == b[0] && b[0] == c[0] {
      OrdinalTransitive(a[1..], b[1..], c[1..]);
    }
  }

  /** Two strings rank equal under ordinal comparison only when they are the same string. */
  lemma {:induction false} OrdinalAntisymmetric(a: string, b: string)
    requires OrdinalLe(a, b) && OrdinalLe(b, a)
    ensures a == b
    decreases |a|
  {
    if |a| > 0 {
      OrdinalAntisymmetric(a[1..], b[1..]);
      assert a == [a[0]] + a[1..] && b == [b[0]] + b[1..];
    }
  }

  /** Ordinal comparison meets what the model assumes of a name comparer, and its ties are equal names. */
  lemma OrdinalIsTotalPreorder()
    ensures TotalPreorder(OrdinalLe)
    ensures forall a, b :: Equivalent(OrdinalLe, a, b) <==> a == b
  {
    forall a, b ensures OrdinalLe(a, b) || OrdinalLe(b, a) {
      OrdinalTotal(a, b);
    }
    forall a, b, c | OrdinalLe(a, b) && OrdinalLe(b, c) ensures OrdinalLe(a, c) {
      OrdinalTransitive(a, b, c);
    }
    forall a, b ensures Equivalent(OrdinalLe, a, b) <==> a == b {
      if Equivalent(OrdinalLe, a, b) {
        OrdinalAntisymmetric(a, b);
      } else if a == b {
        OrdinalTotal(a, a);
      }
    }
  }
}
