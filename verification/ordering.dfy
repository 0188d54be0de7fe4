/**
 * Deterministic enumerations of finite sets: segment ids in ascending numeric
 * order (the order of a sorted id stream and of a TreeMap's key set), and
 * keys in ascending lexicographic order (the order in which compaction visits
 * the keys of one sub-map).
 */
module Ordering {

  /** Strictly increasing sequence of ids. */
  predicate StrictlyAscending(ids: seq<nat>) {
    forall i, j :: 0 <= i < j < |ids| ==> ids[i] < ids[j]
  }

  /** `m` is the least element of `s`. */
  predicate IsLeastId(m: nat, s: set<nat>) {
    m in s && forall x :: x in s ==> m <= x
  }

  /** `m` is the greatest element of `s`. */
  predicate IsGreatestId(m: nat, s: set<nat>) {
    m in s && forall x :: x in s ==> x <= m
  }

  lemma LeastIdExists(s: set<nat>)
    requires s != {}
    ensures exists m :: IsLeastId(m, s)
  {
    var y :| y in s;
    if s == {y} {
      assert IsLeastId(y, s);
    } else {
      LeastIdExists(s - {y});
      var m :| IsLeastId(m, s - {y});
      var least := if y < m then y else m;
      forall x | x in s
        ensures least <= x
      {
        if x != y {
          assert x in s - {y};
        }
      }
      assert IsLeastId(least, s);
    }
  }

  lemma GreatestIdExists(s: set<nat>)
    requires s != {}
    ensures exists m :: IsGreatestId(m, s)
  {
    var y :| y in s;
    if s == {y} {
      assert IsGreatestId(y, s);
    } else {
      GreatestIdExists(s - {y});
      var m :| IsGreatestId(m, s - {y});
      var greatest := if m < y then y else m;
      forall x | x in s
        ensures x <= greatest
      {
        if x != y {
          assert x in s - {y};
        }
      }
      assert IsGreatestId(greatest, s);
    }
  }

  /** The least id of a non-empty set. */
  function MinId(s: set<nat>): (m: nat)
    requires s != {}
    ensures m in s
    ensures forall x :: x in s ==> m <= x
  {
    LeastIdExists(s);
    var m :| IsLeastId(m, s);
    m
  }

  /** The greatest id of a non-empty set. */
  function MaxId(s: set<nat>): (m: nat)
    requires s != {}
    ensures m in s
    ensures forall x :: x in s ==> x <= m
  {
    GreatestIdExists(s);
    var m :| IsGreatestId(m, s);
    m
  }

  /** The ids of `s` in ascending order. */
  function SortedIds(s: set<nat>): (r: seq<nat>)
    ensures StrictlyAscending(r)
    ensures forall x :: x in r <==> x in s
    ensures |r| == |s|
    decreases s
  {
    if s == {} then []
    else
      var m := MinId(s);
      var rest := SortedIds(s - {m});
      assert forall x :: x in rest ==> m < x;
      [m] + rest
  }

  /**
   * Lexicographic order on strings by code point: `a` comes before `b` when
   * it is a proper prefix of `b` or has the smaller character at the first
   * position where they differ.
   */
  predicate KeyBefore(a: string, b: string)
    decreases |a|
  {
    if |a| == 0 then |b| > 0
    else if |b| == 0 then false
    else if a[0] == b[0] then KeyBefore(a[1..], b[1..])
    else a[0] < b[0]
  }

  lemma {:induction false} KeyBeforeIrreflexive(a: string)
    ensures !KeyBefore(a, a)
    decreases |a|
  {
    if |a| > 0 {
      KeyBeforeIrreflexive(a[1..]);
    }
  }

  lemma {:induction false} KeyBeforeTransitive(a: string, b: string, c: string)
    requires KeyBefore(a, b) && KeyBefore(b, c)
    ensures KeyBefore(a, c)
    decreases |a|
  {
    if |a| > 0 && a[0] == b[0] && b[0] == c[0] {
      KeyBeforeTransitive(a[1..], b[1..], c[1..]);
    }
  }

  lemma {:induction false} KeyBeforeTotal(a: string, b: string)
    requires a != b
    ensures KeyBefore(a, b) || KeyBefore(b, a)
    decreases |a|
  {
    if |a| > 0 && |b| > 0 && a[0] == b[0] {
      assert a == [a[0]] + a[1..] && b == [b[0]] + b[1..];
      KeyBeforeTotal(a[1..], b[1..]);
    }
  }

  lemma {:induction false} KeyBeforeAsymmetric(a: string, b: string)
    requires KeyBefore(a, b)
    ensures !KeyBefore(b, a)
  {
    if KeyBefore(b, a) {
      KeyBeforeTransitive(a, b, a);
      KeyBeforeIrreflexive(a);
    }
  }

  /** `m` is the lexicographically least element of `s`. */
  predicate IsLeastKey(m: string, s: set<string>) {
    m in s && forall x :: x in s && x != m ==> KeyBefore(m, x)
  }

  lemma LeastKeyExists(s: set<string>)
    requires s != {}
    ensures exists m :: IsLeastKey(m, s)
  {
    var y :| y in s;
    if s == {y} {
      assert IsLeastKey(y, s);
    } else {
      LeastKeyExists(s - {y});
      var m :| IsLeastKey(m, s - {y});
      KeyBeforeTotal(m, y);
      if KeyBefore(m, y) {
        assert IsLeastKey(m, s);
      } else {
        forall x | x in s && x != y
          ensures KeyBefore(y, x)
        {
          if x != m {
            KeyBeforeTransitive(y, m, x);
          }
        }
        assert IsLeastKey(y, s);
      }
    }
  }

  lemma LeastKeyUnique(s: set<string>)
    ensures forall m, n :: IsLeastKey(m, s) && IsLeastKey(n, s) ==> m == n
  {
    forall m, n | IsLeastKey(m, s) && IsLeastKey(n, s)
      ensures m == n
    {
      if m != n {
        KeyBeforeAsymmetric(m, n);
      }
    }
  }

  /** The lexicographically least key of a non-empty set. */
  function LeastKey(s: set<string>): (m: string)
    requires s != {}
    ensures IsLeastKey(m, s)
  {
    LeastKeyExists(s);
    LeastKeyUnique(s);
    var m :| IsLeastKey(m, s);
    m
  }

  /** The keys of `s` in ascending lexicographic order, each exactly once. */
  function SortedKeys(s: set<string>): (r: seq<string>)
    ensures forall k :: k in r <==> k in s
    ensures |r| == |s|
    ensures forall i, j :: 0 <= i < j < |r| ==> KeyBefore(r[i], r[j])
    decreases s
  {
    if s == {} then []
    else
      var m := LeastKey(s);
      var rest := SortedKeys(s - {m});
      assert forall j :: 0 <= j < |rest| ==> KeyBefore(m, rest[j]) by {
        forall j | 0 <= j < |rest|
          ensures KeyBefore(m, rest[j])
        {
          assert rest[j] in s - {m};
        }
      }
      [m] + rest
  }
}
