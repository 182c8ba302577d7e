/** Small additions to maps and sets shared by the other modules. */
module Collections {
  datatype Option<+T> = None | Some(value: T)

  function Remove<K, V>(m: map<K, V>, k: K): map<K, V> { m - {k} }

  lemma RemoveUpdated<K, V>(m: map<K, V>, k: K, v: V)
    ensures Remove(m[k := v], k) == Remove(m, k)
  {
  }

  lemma UpdateTwice<K, V>(m: map<K, V>, k: K, v: V, w: V)
    ensures m[k := v][k := w] == m[k := w]
  {
  }

  function Get<K, V>(m: map<K, V>, k: K, default: V): V {
    if k in m then m[k] else default
  }

  function Min(a: int, b: int): int { if a < b then a else b }

  function FirstOf<T>(s: seq<T>, n: nat): seq<T> { if |s| <= n then s else s[..n] }

  lemma SubsetSize<T>(a: set<T>, b: set<T>)
    requires a <= b
    ensures |a| <= |b| && (|a| == |b| ==> a == b)
  {
    assert b == a + (b - a);
  }

  /** A set mapped one-to-one into another is no larger. */
  lemma {:induction false} InjectionSize<A, B>(a: set<A>, b: set<B>, f: A --> B)
    requires forall x :: x in a ==> f.requires(x)
    requires forall x :: x in a ==> f(x) in b
    requires forall x, y :: x in a && y in a && x != y ==> f(x) != f(y)
    ensures |a| <= |b|
    decreases a
  {
    if a != {} {
      var x :| x in a;
      InjectionSize(a - {x}, b - {f(x)}, f);
    }
  }

  /** A set that another one is mapped onto is no larger. */
  lemma {:induction false} SurjectionSize<A, B>(a: set<A>, b: set<B>, f: A -> B)
    requires forall y :: y in b ==> exists x :: x in a && f(x) == y
    ensures |b| <= |a|
    decreases b
  {
    if b != {} {
      var y :| y in b;
      var x :| x in a && f(x) == y;
      forall z | z in b - {y} ensures exists w :: w in a - {x} && f(w) == z {
        var w :| w in a && f(w) == z;
      }
      SurjectionSize(a - {x}, b - {y}, f);
    }
  }

  lemma OneLessTodo<T>(all: set<T>, todo: set<T>, x: T)
    requires x in todo
    ensures |all - (todo - {x})| == |all - todo| + if x in all then 1 else 0
  {
    if x in all { assert all - (todo - {x}) == (all - todo) + {x}; }
    else { assert all - (todo - {x}) == all - todo; }
  }

  lemma ReplaceSize<T>(a: set<T>, x: T, now: bool)
    ensures |a - {x} + if now then {x} else {}| == |a| - (if x in a then 1 else 0) + (if now then 1 else 0)
  {
    if x in a { assert a == (a - {x}) + {x}; } else { assert a == a - {x}; }
  }

  function FirstNumbers(n: nat): (r: set<nat>)
    ensures forall i: nat :: i in r <==> i < n
  {
    if n == 0 then {} else FirstNumbers(n - 1) + {n - 1}
  }

  ghost predicate Stepwise(n: nat, right: nat -> bool, fine: nat -> bool, side: nat -> bool) {
    forall k: nat :: k < n && right(k) && side(k) ==> (right(k + 1) <==> fine(k)) && (fine(k) ==> side(k + 1))
  }

  /** If a step from a good state is good exactly when it is fine, all states are good exactly when all steps are
      fine; `side` is what a fine step keeps besides. */
  lemma AlongIff(n: nat, right: nat -> bool, fine: nat -> bool, side: nat -> bool)
    requires right(0) && side(0)
    requires Stepwise(n, right, fine, side)
    ensures (forall k: nat :: k <= n ==> right(k)) <==> (forall k: nat :: k < n ==> fine(k))
  {
    if forall k: nat :: k <= n ==> right(k) { AlongBack(n, n, right, fine, side); }
    if forall k: nat :: k < n ==> fine(k) {
      forall k: nat | k <= n ensures right(k) { AlongForward(n, k, right, fine, side); }
    }
  }

  lemma {:induction false} AlongForward(n: nat, k: nat, right: nat -> bool, fine: nat -> bool, side: nat -> bool)
    requires right(0) && side(0) && k <= n && forall j: nat :: j < n ==> fine(j)
    requires Stepwise(n, right, fine, side)
    ensures right(k) && side(k)
  {
    if k > 0 {
      AlongForward(n, k - 1, right, fine, side);
      assert right(k - 1) && fine(k - 1);
    }
  }

  lemma {:induction false} AlongBack(n: nat, k: nat, right: nat -> bool, fine: nat -> bool, side: nat -> bool)
    requires side(0) && k <= n && forall j: nat :: j <= n ==> right(j)
    requires Stepwise(n, right, fine, side)
    ensures side(k) && forall j: nat :: j < k ==> fine(j)
  {
    if k > 0 {
      AlongBack(n, k - 1, right, fine, side);
      assert right(k - 1) && right(k - 1 + 1);
    }
  }
}
