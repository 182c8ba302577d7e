/** Redis sorted sets, as far as the feed uses them: ZADD, ZREMRANGEBYRANK 0 -(K+1) and ZREVRANGE.
    A sorted set is the sequence of its entries by ascending rank: by score, and by member for equal scores. */
module SortedSet {
  import opened Collections

  type Id = string

  datatype Entry = Entry(id: Id, score: real)

  // Byte order on members, the tie-break Redis applies to equal scores.
  predicate LexLess(a: Id, b: Id)
    decreases |a|
  {
    if b == "" then false
    else if a == "" then true
    else a[0] < b[0] || (a[0] == b[0] && LexLess(a[1..], b[1..]))
  }

  /** That is: a is a proper prefix of b, or smaller at the first place where they differ. */
  lemma {:induction false} LexLessIff(a: Id, b: Id)
    ensures LexLess(a, b) <==>
      exists n :: 0 <= n <= |a| && n < |b| && a[..n] == b[..n] && (n == |a| || a[n] < b[n])
    decreases |a|
  {
    if a != "" && b != "" {
      LexLessIff(a[1..], b[1..]);
      assert a == [a[0]] + a[1..] && b == [b[0]] + b[1..];
      if n :| 0 <= n <= |a[1..]| && n < |b[1..]| && a[1..][..n] == b[1..][..n] && (n == |a[1..]| || a[1..][n] < b[1..][n]) {
        if a[0] == b[0] { assert a[..n + 1] == [a[0]] + a[1..][..n] && b[..n + 1] == [b[0]] + b[1..][..n]; }
      }
      if n :| 0 < n <= |a| && n < |b| && a[..n] == b[..n] && (n == |a| || a[n] < b[n]) {
        assert a[1..][..n - 1] == a[..n][1..] && b[1..][..n - 1] == b[..n][1..];
        assert a[..n][0] == b[..n][0];
      }
    }
    if a == "" && b != "" { assert a[..0] == b[..0]; }
    if a != "" && b != "" && a[0] < b[0] { assert a[..0] == b[..0]; }
  }

  lemma {:induction false} LexTotal(a: Id, b: Id)
    ensures a == b || LexLess(a, b) || LexLess(b, a)
    ensures !(LexLess(a, b) && (a == b || LexLess(b, a)))
    decreases |a|
  {
    if a != "" && b != "" {
      LexTotal(a[1..], b[1..]);
      assert a == [a[0]] + a[1..] && b == [b[0]] + b[1..];
    }
  }

  lemma {:induction false} LexTransitive(a: Id, b: Id, c: Id)
    requires LexLess(a, b) && LexLess(b, c)
    ensures LexLess(a, c)
    decreases |a|
  {
    if a != "" && a[0] == b[0] == c[0] {
      LexTransitive(a[1..], b[1..], c[1..]);
    }
  }

  predicate Below(a: Entry, b: Entry) {
    a.score < b.score || (a.score == b.score && LexLess(a.id, b.id))
  }

  lemma BelowTotal(a: Entry, b: Entry)
    ensures a == b || Below(a, b) || Below(b, a)
    ensures !(Below(a, b) && (a == b || Below(b, a)))
  {
    LexTotal(a.id, b.id);
  }

  lemma BelowTransitive(a: Entry, b: Entry, c: Entry)
    requires Below(a, b) && Below(b, c)
    ensures Below(a, c)
  {
    if a.score == b.score == c.score { LexTransitive(a.id, b.id, c.id); }
  }

  ghost predicate Ranked(z: seq<Entry>) {
    forall i, j :: 0 <= i < j < |z| ==> Below(z[i], z[j])
  }

  // Every member of a sorted set carries one score.
  ghost predicate OneScoreEach(s: set<Entry>) {
    forall a, b :: a in s && b in s && a.id == b.id ==> a == b
  }

  ghost function Elems(z: seq<Entry>): set<Entry> { set e | e in z }

  lemma {:induction false} RankedSize(z: seq<Entry>)
    requires Ranked(z)
    ensures |Elems(z)| == |z|
  {
    if z != [] {
      var m := |z| - 1;
      RankedSize(z[..m]);
      BelowTotal(z[m], z[m]);
      assert z[m] !in z[..m];
      assert Elems(z) == Elems(z[..m]) + {z[m]} by { assert z == z[..m] + [z[m]]; }
    }
  }

  // The members but the last, of a sequence that has no member twice.
  lemma ElemsButLast(y: seq<Entry>)
    requires Ranked(y) && y != []
    ensures var m := |y| - 1; Ranked(y[..m]) && Elems(y[..m]) == Elems(y) - {y[m]}
  {
    var m := |y| - 1;
    assert y == y[..m] + [y[m]];
    forall e | e in y[..m] ensures e != y[m] {
      var i :| 0 <= i < m && y[i] == e;
      BelowTotal(e, e);
    }
  }

  lemma SameLast(y: seq<Entry>, z: seq<Entry>)
    requires Ranked(y) && Ranked(z) && Elems(y) == Elems(z) && y != [] && z != []
    ensures y[|y| - 1] == z[|z| - 1]
  {
    var m, n := |y| - 1, |z| - 1;
    assert y[m] in Elems(z) && z[n] in Elems(y);
    BelowTotal(y[m], z[n]);
  }

  /** A ranked sequence is determined by its elements. */
  lemma {:induction false} RankedUnique(y: seq<Entry>, z: seq<Entry>)
    requires Ranked(y) && Ranked(z) && Elems(y) == Elems(z)
    ensures y == z
    decreases |y|
  {
    RankedSize(y);
    RankedSize(z);
    if y != [] {
      var m, n := |y| - 1, |z| - 1;
      SameLast(y, z);
      ElemsButLast(y);
      ElemsButLast(z);
      RankedUnique(y[..m], z[..n]);
      assert y == y[..m] + [y[m]] && z == z[..n] + [z[n]];
    }
  }

  // ZREM of one member.
  function Without(z: seq<Entry>, id: Id): (r: seq<Entry>)
    ensures forall e :: e in r <==> e in z && e.id != id
    ensures |r| <= |z|
  {
    if z == [] then []
    else if z[|z| - 1].id == id then Without(z[..|z| - 1], id)
    else Without(z[..|z| - 1], id) + [z[|z| - 1]]
  }

  lemma {:induction false} WithoutRanked(z: seq<Entry>, id: Id)
    requires Ranked(z)
    ensures Ranked(Without(z, id))
  {
    if z != [] {
      var m := |z| - 1;
      WithoutRanked(z[..m], id);
      forall e | e in Without(z[..m], id) ensures Below(e, z[m]) {
        var i :| 0 <= i < m && z[i] == e;
      }
    }
  }

  // The rank at which a new entry goes.
  function Place(z: seq<Entry>, e: Entry): (j: nat)
    ensures j <= |z|
    ensures j > 0 ==> Below(z[j - 1], e)
    ensures forall i :: j <= i < |z| ==> !Below(z[i], e)
  {
    if z == [] then 0
    else if Below(z[|z| - 1], e) then |z|
    else Place(z[..|z| - 1], e)
  }

  // ZADD: a member that is already there moves to its new score.
  function ZAdd(z: seq<Entry>, e: Entry): seq<Entry> {
    var y := Without(z, e.id);
    var j := Place(y, e);
    y[..j] + [e] + y[j..]
  }

  lemma InsertRanked(y: seq<Entry>, j: nat, e: Entry)
    requires Ranked(y) && j <= |y|
    requires forall i :: 0 <= i < j ==> Below(y[i], e)
    requires forall i :: j <= i < |y| ==> Below(e, y[i])
    ensures Ranked(y[..j] + [e] + y[j..])
    ensures Elems(y[..j] + [e] + y[j..]) == Elems(y) + {e}
  {
    var z := y[..j] + [e] + y[j..];
    forall a, b | 0 <= a < b < |z| ensures Below(z[a], z[b]) {
      assert z[a] == (if a < j then y[a] else if a == j then e else y[a - 1]);
      assert z[b] == (if b < j then y[b] else if b == j then e else y[b - 1]);
    }
    assert y == y[..j] + y[j..];
  }

  lemma PlaceSplits(y: seq<Entry>, e: Entry)
    requires Ranked(y) && e !in y
    ensures forall i :: 0 <= i < Place(y, e) ==> Below(y[i], e)
    ensures forall i :: Place(y, e) <= i < |y| ==> Below(e, y[i])
  {
    var j := Place(y, e);
    forall i | 0 <= i < j ensures Below(y[i], e) {
      if i < j - 1 { BelowTransitive(y[i], y[j - 1], e); }
    }
    forall i | j <= i < |y| ensures Below(e, y[i]) {
      BelowTotal(y[i], e);
    }
  }

  /** ZADD keeps the ranking, and changes the contents as an upsert does. */
  lemma ZAddEffect(z: seq<Entry>, e: Entry)
    requires Ranked(z)
    ensures Ranked(ZAdd(z, e))
    ensures Elems(ZAdd(z, e)) == (set x | x in z && x.id != e.id) + {e}
  {
    WithoutRanked(z, e.id);
    PlaceSplits(Without(z, e.id), e);
    InsertRanked(Without(z, e.id), Place(Without(z, e.id), e), e);
  }

  lemma ZAddAgain(z: seq<Entry>, e: Entry)
    requires Ranked(z) && OneScoreEach(Elems(z)) && e in z
    ensures ZAdd(z, e) == z
  {
    ZAddEffect(z, e);
    RankedUnique(ZAdd(z, e), z);
  }

  lemma {:induction false} WithoutAbsent(z: seq<Entry>, id: Id)
    requires forall e :: e in z ==> e.id != id
    ensures Without(z, id) == z
  {
    if z != [] {
      var rest, last := z[..|z| - 1], z[|z| - 1];
      assert last in z;
      WithoutAbsent(rest, id);
      assert z == rest + [last];
    }
  }

  // ZREMRANGEBYRANK 0 -(k+1): the k highest ranks stay.
  function Trim(z: seq<Entry>, k: nat): seq<Entry> {
    if |z| <= k then z else z[|z| - k..]
  }

  // ZREVRANGE start stop-1, for 0 <= start <= stop.
  function ZRevRange(z: seq<Entry>, start: nat, stop: nat): seq<Entry>
    requires start <= stop
  {
    Window(Reversed(z), start, stop - start)
  }

  function Reversed<T>(s: seq<T>): (r: seq<T>)
    ensures |r| == |s| && forall i :: 0 <= i < |s| ==> r[i] == s[|s| - 1 - i]
  {
    seq(|s|, i requires 0 <= i < |s| => s[|s| - 1 - i])
  }

  // At most `len` elements from position `start` on; Redis clips a range to what is there.
  function Window<T>(s: seq<T>, start: nat, len: nat): (r: seq<T>)
    ensures |r| <= len
    ensures forall i :: 0 <= i < |r| ==> start + i < |s| && r[i] == s[start + i]
    ensures |r| == len || start + |r| >= |s|
  {
    if |s| <= start then [] else if |s| <= start + len then s[start..] else s[start..start + len]
  }

  lemma ShownFromTop(z: seq<Entry>, shown: seq<Entry>, k: nat)
    requires k < |z| && |z| - 1 - k < |shown| <= |z|
    requires forall i :: 0 <= i < |shown| ==> shown[i] == z[|z| - 1 - i]
    ensures z[k] in shown
  {
    assert shown[|z| - 1 - k] == z[k];
  }

  /** What is read from the top down stands in falling score, and from the very top on nothing left out scores more. */
  lemma TopDown(z: seq<Entry>, start: nat, shown: seq<Entry>)
    requires Ranked(z) && start + |shown| <= |z|
    requires forall i :: 0 <= i < |shown| ==> shown[i] == z[|z| - 1 - start - i]
    ensures forall i, j :: 0 <= i < j < |shown| ==> shown[i].score >= shown[j].score
    ensures forall x :: x in shown ==> x in z
    ensures start == 0 ==> forall x, e :: x in shown && e in z && e !in shown ==> e.score <= x.score
  {
    if start == 0 {
      forall x, e | x in shown && e in z && e !in shown ensures e.score <= x.score {
        var i :| 0 <= i < |shown| && shown[i] == x;
        var k :| 0 <= k < |z| && z[k] == e;
        if |z| - 1 - k < |shown| {
          ShownFromTop(z, shown, k);
          assert false;
        }
      }
    }
  }

  // ----- The bounded sorted set as a top-K structure -----

  /** z holds the k greatest elements of s, and perhaps more of s. */
  ghost predicate Covers(z: seq<Entry>, s: set<Entry>, k: nat) {
    && Ranked(z)
    && Elems(z) <= s
    && (forall e :: e in s && e !in z ==> |z| >= k > 0 && Below(e, z[|z| - k]))
  }

  /** z is exactly the k greatest elements of s, in rank order. */
  ghost predicate IsTop(z: seq<Entry>, s: set<Entry>, k: nat) {
    && Ranked(z)
    && Elems(z) <= s
    && |z| == (if |s| < k then |s| else k)
    && (forall e, x :: e in s && e !in z && x in z ==> Below(e, x))
  }

  // Inserting moves the k-th greatest entry up or leaves it.
  lemma InsertLiftsBound(z: seq<Entry>, j: nat, e: Entry, k: nat, x: Entry)
    requires Ranked(z) && j <= |z| && 0 < k <= |z|
    requires forall i :: 0 <= i < j ==> Below(z[i], e)
    requires Below(x, z[|z| - k])
    ensures Below(x, (z[..j] + [e] + z[j..])[|z| + 1 - k])
  {
    var was, now := |z| - k, |z| + 1 - k;
    if now < j { BelowTransitive(x, z[was], z[now]); }
    else if now == j { BelowTransitive(x, z[was], e); }
  }

  lemma InsertCovers(z: seq<Entry>, s: set<Entry>, j: nat, e: Entry, k: nat)
    requires k > 0 && Covers(z, s, k) && j <= |z|
    requires forall i :: 0 <= i < j ==> Below(z[i], e)
    requires Ranked(z[..j] + [e] + z[j..]) && Elems(z[..j] + [e] + z[j..]) == Elems(z) + {e}
    ensures Covers(z[..j] + [e] + z[j..], s + {e}, k)
  {
    var y := z[..j] + [e] + z[j..];
    forall x | x in s + {e} && x !in y ensures |y| >= k && Below(x, y[|y| - k]) {
      assert x in y <==> x in Elems(z) + {e} by { assert x in y <==> x in Elems(y); }
      InsertLiftsBound(z, j, e, k, x);
    }
  }

  lemma ZAddCovers(z: seq<Entry>, s: set<Entry>, e: Entry, k: nat)
    requires k > 0 && Covers(z, s, k) && OneScoreEach(s + {e})
    ensures Covers(ZAdd(z, e), s + {e}, k)
  {
    forall x | x in z && x.id == e.id ensures x == e { assert x in Elems(z); }
    if e in z {
      assert e in Elems(z);
      assert OneScoreEach(Elems(z));
      ZAddAgain(z, e);
      assert s + {e} == s;
    } else {
      WithoutAbsent(z, e.id);
      PlaceSplits(z, e);
      InsertRanked(z, Place(z, e), e);
      InsertCovers(z, s, Place(z, e), e, k);
    }
  }

  lemma TrimCovers(z: seq<Entry>, s: set<Entry>, k: nat)
    requires k > 0 && Covers(z, s, k)
    ensures Covers(Trim(z, k), s, k)
  {
    var y := Trim(z, k);
    if |z| > k {
      forall e | e in s && e !in y ensures Below(e, y[0]) {
        if e in z[..|z| - k] {
          var i :| 0 <= i < |z| - k && z[i] == e;
        } else {
          assert z == z[..|z| - k] + y;
        }
      }
      forall e | e in Elems(y) ensures e in s { assert e in Elems(z); }
    }
  }

  lemma CoversIsTop(z: seq<Entry>, s: set<Entry>, k: nat)
    requires k > 0 && Covers(z, s, k) && |z| <= k
    ensures IsTop(z, s, k)
  {
    RankedSize(z);
    SubsetSize(Elems(z), s);
    if |z| < k {
      assert forall e :: e in s ==> e in z;
      assert Elems(z) == s;
    } else {
      forall e, x | e in s && e !in z && x in z ensures Below(e, x) {
        var i :| 0 <= i < |z| && z[i] == x;
        if i > 0 { BelowTransitive(e, z[0], x); }
      }
    }
  }

  /** "The k greatest" names one sequence. */
  lemma TopUnique(y: seq<Entry>, z: seq<Entry>, s: set<Entry>, k: nat)
    requires IsTop(y, s, k) && IsTop(z, s, k)
    ensures y == z
  {
    RankedSize(y);
    RankedSize(z);
    if Elems(y) <= Elems(z) {
      SubsetSize(Elems(y), Elems(z));
    } else if Elems(z) <= Elems(y) {
      SubsetSize(Elems(z), Elems(y));
    } else {
      var a :| a in Elems(y) && a !in Elems(z);
      var b :| b in Elems(z) && b !in Elems(y);
      BelowTotal(a, b);
      assert false;
    }
    RankedUnique(y, z);
  }
}
