/** The slot pattern of the timeline: `ratio` inbox posts, one hot post, and so on. */
module Interleave {
  import opened Collections
  import opened SortedSet

  datatype Source = Inbox | Hot
  datatype Slot = Slot(entry: Entry, source: Source)

  function Tagged(s: seq<Entry>, source: Source): (r: seq<Slot>)
    ensures |r| == |s| && forall i :: 0 <= i < |s| ==> r[i] == Slot(s[i], source)
  {
    seq(|s|, i requires 0 <= i < |s| => Slot(s[i], source))
  }

  // The merge by blocks, when the next hot post is due after `due` more inbox posts.
  function MergeFrom(inbox: seq<Entry>, hot: seq<Entry>, ratio: nat, due: nat): (r: seq<Slot>)
    requires 0 < due <= ratio
    ensures |r| == |inbox| + |hot|
    decreases |hot|
  {
    if hot == [] || |inbox| < due then Tagged(inbox, Inbox) + Tagged(hot, Hot)
    else Tagged(inbox[..due], Inbox) + [Slot(hot[0], Hot)] + MergeFrom(inbox[due..], hot[1..], ratio, ratio)
  }

  function Merge(inbox: seq<Entry>, hot: seq<Entry>, ratio: nat): seq<Slot>
    requires ratio > 0
  {
    MergeFrom(inbox, hot, ratio, ratio)
  }

  lemma TaggedCons(s: seq<Entry>, source: Source)
    requires s != []
    ensures Tagged(s, source) == [Slot(s[0], source)] + Tagged(s[1..], source)
  {
  }

  // No hot post is due any more: the rest of the inbox, then the rest of the hot posts.
  lemma MergeStepPlain(inbox: seq<Entry>, hot: seq<Entry>, ratio: nat, due: nat, next: nat)
    requires 0 < due <= ratio && 0 < next <= ratio && inbox != []
    requires (hot == [] || |inbox| < due) && (hot == [] || |inbox| - 1 < next)
    ensures MergeFrom(inbox, hot, ratio, due) == [Slot(inbox[0], Inbox)] + MergeFrom(inbox[1..], hot, ratio, next)
  {
    TaggedCons(inbox, Inbox);
    var x, y, z := [Slot(inbox[0], Inbox)], Tagged(inbox[1..], Inbox), Tagged(hot, Hot);
    assert MergeFrom(inbox[1..], hot, ratio, next) == y + z;
    assert (x + y) + z == x + (y + z);
  }

  // A hot post is due after `due` inbox posts, the first of which goes out now.
  lemma MergeStepBlock(inbox: seq<Entry>, hot: seq<Entry>, ratio: nat, due: nat)
    requires 1 < due <= ratio && hot != [] && |inbox| >= due
    ensures MergeFrom(inbox, hot, ratio, due) == [Slot(inbox[0], Inbox)] + MergeFrom(inbox[1..], hot, ratio, due - 1)
  {
    TaggedCons(inbox[..due], Inbox);
    var rest := inbox[1..];
    assert inbox[..due][1..] == rest[..due - 1] && rest[due - 1..] == inbox[due..];
    var x, y, h, t := [Slot(inbox[0], Inbox)], Tagged(rest[..due - 1], Inbox), [Slot(hot[0], Hot)],
                      MergeFrom(inbox[due..], hot[1..], ratio, ratio);
    assert MergeFrom(rest, hot, ratio, due - 1) == y + h + t;
    assert (x + y) + h + t == x + (y + h + t);
  }

  lemma MergeStepDue(inbox: seq<Entry>, hot: seq<Entry>, ratio: nat)
    requires 0 < ratio && hot != [] && inbox != []
    ensures MergeFrom(inbox, hot, ratio, 1) ==
      [Slot(inbox[0], Inbox)] + [Slot(hot[0], Hot)] + MergeFrom(inbox[1..], hot[1..], ratio, ratio)
  {
    assert Tagged(inbox[..1], Inbox) == [Slot(inbox[0], Inbox)];
  }

  lemma MergeStep(inbox: seq<Entry>, hot: seq<Entry>, ratio: nat, due: nat)
    requires 0 < due <= ratio && inbox != []
    ensures due > 1 ==>
      MergeFrom(inbox, hot, ratio, due) == [Slot(inbox[0], Inbox)] + MergeFrom(inbox[1..], hot, ratio, due - 1)
    ensures due == 1 && hot == [] ==>
      MergeFrom(inbox, hot, ratio, due) == [Slot(inbox[0], Inbox)] + MergeFrom(inbox[1..], hot, ratio, ratio)
    ensures due == 1 && hot != [] ==>
      MergeFrom(inbox, hot, ratio, due) ==
      [Slot(inbox[0], Inbox)] + [Slot(hot[0], Hot)] + MergeFrom(inbox[1..], hot[1..], ratio, ratio)
  {
    if due == 1 && hot != [] { MergeStepDue(inbox, hot, ratio); }
    else if hot == [] || |inbox| < due { MergeStepPlain(inbox, hot, ratio, due, if due > 1 then due - 1 else ratio); }
    else { MergeStepBlock(inbox, hot, ratio, due); }
  }

  lemma ModStep(i: nat, n: nat)
    requires n > 0
    ensures (i + 1) % n == if i % n == n - 1 then 0 else i % n + 1
    ensures (i + 1) / n == if i % n == n - 1 then i / n + 1 else i / n
  {
    var q, m := i / n, i % n;
    assert i == n * q + m;
    if m == n - 1 {
      DivModUnique(i + 1, n, q + 1, 0);
    } else {
      DivModUnique(i + 1, n, q, m + 1);
    }
  }

  lemma DivModUnique(i: nat, n: nat, q: nat, m: nat)
    requires m < n && i == n * q + m
    ensures i / n == q && i % n == m
  {
    assert i == n * (i / n) + i % n;
    MultipleBound(n, i / n - q);
    assert n * (i / n - q) == m - i % n;
  }

  lemma MultipleBound(n: nat, d: int)
    ensures d >= 1 ==> n * d >= n
    ensures d <= -1 ==> n * d <= 0 - n
  {
    if d >= 1 { assert n * d == n * (d - 1) + n; }
    if d <= -1 { assert n * d == n * (d + 1) - n; }
  }

  // Division and multiplication by counting, for proofs that step through them.
  function Quotient(i: nat, n: nat): nat
    requires n > 0
  {
    if i < n then 0 else Quotient(i - n, n) + 1
  }

  lemma {:induction false} QuotientIsDivision(i: nat, n: nat)
    requires n > 0
    ensures Quotient(i, n) == i / n
  {
    if i < n {
      DivModUnique(i, n, 0, i);
    } else {
      QuotientIsDivision(i - n, n);
      DivBack(i, n);
    }
  }

  lemma DivBack(i: nat, n: nat)
    requires 0 < n <= i
    ensures i / n == (i - n) / n + 1
  {
    var q, m := (i - n) / n, (i - n) % n;
    assert n * (q + 1) == n * q + n;
    DivModUnique(i, n, q + 1, m);
  }

  function Multiple(k: nat, n: nat): nat {
    if k == 0 then 0 else Multiple(k - 1, n) + n
  }

  lemma {:induction false} MultipleIsProduct(k: nat, n: nat)
    ensures Multiple(k, n) == k * n
  {
    if k > 0 {
      MultipleIsProduct(k - 1, n);
      assert k * n == (k - 1) * n + n;
    }
  }

  // Halfway through the loop: i inbox posts and hi hot posts are in, the next hot post is due after `due` more
  // inbox posts, and the rest of the merge follows.
  ghost predicate Merging(result: seq<Slot>, inbox: seq<Entry>, hot: seq<Entry>, ratio: nat, i: nat, hi: nat, due: nat) {
    && i <= |inbox| && hi <= |hot| && 0 < due <= ratio
    && result + MergeFrom(inbox[i..], hot[hi..], ratio, due) == Merge(inbox, hot, ratio)
  }

  lemma MergingEnds(result: seq<Slot>, inbox: seq<Entry>, hot: seq<Entry>, ratio: nat, hi: nat, due: nat)
    requires Merging(result, inbox, hot, ratio, |inbox|, hi, due)
    ensures result + Tagged(hot[hi..], Hot) == Merge(inbox, hot, ratio)
  {
    assert Tagged(inbox[|inbox|..], Inbox) == [];
  }

  lemma MergingStep(result: seq<Slot>, inbox: seq<Entry>, hot: seq<Entry>, ratio: nat, i: nat, hi: nat, due: nat)
    requires Merging(result, inbox, hot, ratio, i, hi, due) && i < |inbox|
    ensures var next := result + [Slot(inbox[i], Inbox)];
            if due == 1 && hi < |hot| then
              Merging(next + [Slot(hot[hi], Hot)], inbox, hot, ratio, i + 1, hi + 1, ratio)
            else
              Merging(next, inbox, hot, ratio, i + 1, hi, if due == 1 then ratio else due - 1)
  {
    MergeStep(inbox[i..], hot[hi..], ratio, due);
    assert inbox[i..][1..] == inbox[i + 1..];
    var x := [Slot(inbox[i], Inbox)];
    if due == 1 && hi < |hot| {
      assert hot[hi..][1..] == hot[hi + 1..];
      Regroup(result, x, [Slot(hot[hi], Hot)], MergeFrom(inbox[i + 1..], hot[hi + 1..], ratio, ratio));
    } else {
      Regroup(result, x, [], MergeFrom(inbox[i + 1..], hot[hi..], ratio, if due == 1 then ratio else due - 1));
    }
  }

  lemma Regroup<T>(a: seq<T>, x: seq<T>, y: seq<T>, t: seq<T>)
    ensures a + (x + y + t) == a + x + y + t && a + (x + t) == a + x + t
  {
  }

  /** The loop of the source computes the block merge. */
  method InterleaveSlots(inbox: seq<Entry>, hot: seq<Entry>, ratio: nat) returns (result: seq<Slot>)
    requires ratio > 0
    ensures result == Merge(inbox, hot, ratio)
  {
    result := [];
    var hi := 0;
    ghost var due: nat := ratio;
    DivModUnique(0, ratio, 0, 0);
    for i := 0 to |inbox|
      invariant Merging(result, inbox, hot, ratio, i, hi, due)
      invariant due == ratio - i % ratio
    {
      ModStep(i, ratio);
      MergingStep(result, inbox, hot, ratio, i, hi, due);
      result := result + [Slot(inbox[i], Inbox)];
      if (i + 1) % ratio == 0 && hi < |hot| {
        result := result + [Slot(hot[hi], Hot)];
        hi := hi + 1;
      }
      due := if due == 1 then ratio else due - 1;
    }
    MergingEnds(result, inbox, hot, ratio, hi, due);
    result := AppendHot(result, hot, hi);
  }

  // The second loop: the hot posts that are left go to the end.
  method AppendHot(slots: seq<Slot>, hot: seq<Entry>, from: nat) returns (result: seq<Slot>)
    requires from <= |hot|
    ensures result == slots + Tagged(hot[from..], Hot)
  {
    result := slots;
    var hi := from;
    while hi < |hot|
      invariant from <= hi <= |hot|
      invariant result == slots + Tagged(hot[from..hi], Hot)
    {
      assert hot[from..hi + 1] == hot[from..hi] + [hot[hi]];
      assert Tagged(hot[from..hi + 1], Hot) == Tagged(hot[from..hi], Hot) + [Slot(hot[hi], Hot)];
      result := result + [Slot(hot[hi], Hot)];
      hi := hi + 1;
    }
    assert hot[from..|hot|] == hot[from..];
  }

  // ----- Where each post ends up -----

  // i + min(i / ratio, hots)
  function InboxIndex(i: nat, hots: nat, ratio: nat): nat
    requires ratio > 0
  {
    i + Min(Quotient(i, ratio), hots)
  }

  // (j + 1) * ratio + j, or inboxes + j when the inbox is too short
  function HotIndex(j: nat, inboxes: nat, ratio: nat): nat {
    if Multiple(j + 1, ratio) <= inboxes then Multiple(j + 1, ratio) + j else inboxes + j
  }

  lemma {:induction false} InboxLands(inbox: seq<Entry>, hot: seq<Entry>, ratio: nat, i: nat)
    requires ratio > 0 && i < |inbox|
    ensures InboxIndex(i, |hot|, ratio) < |Merge(inbox, hot, ratio)|
    ensures Merge(inbox, hot, ratio)[InboxIndex(i, |hot|, ratio)] == Slot(inbox[i], Inbox)
    decreases |hot|
  {
    if i >= ratio && hot != [] {
      InboxLands(inbox[ratio..], hot[1..], ratio, i - ratio);
      BlockIndex(inbox, hot, ratio, InboxIndex(i - ratio, |hot| - 1, ratio));
    }
  }

  // Past its first block, the merge is the merge of what is left.
  lemma BlockIndex(inbox: seq<Entry>, hot: seq<Entry>, ratio: nat, k: nat)
    requires 0 < ratio <= |inbox| && hot != [] && k < |Merge(inbox[ratio..], hot[1..], ratio)|
    ensures Merge(inbox, hot, ratio)[k + ratio + 1] == Merge(inbox[ratio..], hot[1..], ratio)[k]
  {
  }

  lemma {:induction false} HotLands(inbox: seq<Entry>, hot: seq<Entry>, ratio: nat, j: nat)
    requires ratio > 0 && j < |hot|
    ensures HotIndex(j, |inbox|, ratio) < |Merge(inbox, hot, ratio)|
    ensures Merge(inbox, hot, ratio)[HotIndex(j, |inbox|, ratio)] == Slot(hot[j], Hot)
    decreases |hot|
  {
    if |inbox| >= ratio && j > 0 {
      HotLands(inbox[ratio..], hot[1..], ratio, j - 1);
      BlockIndex(inbox, hot, ratio, HotIndex(j - 1, |inbox| - ratio, ratio));
    } else {
      MultipleGrows(j, ratio);
    }
  }

  lemma {:induction false} MultipleGrows(k: nat, n: nat)
    ensures Multiple(k + 1, n) >= n
  {
    if k > 0 { MultipleGrows(k - 1, n); }
  }

  /** Inbox post i is pushed back by one slot for each hot post already due. */
  lemma InboxLandsAt(inbox: seq<Entry>, hot: seq<Entry>, ratio: nat, i: nat)
    requires ratio > 0 && i < |inbox|
    ensures var k := i + if i / ratio < |hot| then i / ratio else |hot|;
            0 <= k < |Merge(inbox, hot, ratio)| && Merge(inbox, hot, ratio)[k] == Slot(inbox[i], Inbox)
  {
    InboxLands(inbox, hot, ratio, i);
    QuotientIsDivision(i, ratio);
  }

  /** Hot post j follows inbox post (j+1)*ratio - 1, or the whole inbox when that is shorter. */
  lemma HotLandsAt(inbox: seq<Entry>, hot: seq<Entry>, ratio: nat, j: nat)
    requires ratio > 0 && j < |hot|
    ensures var k := (if (j + 1) * ratio <= |inbox| then (j + 1) * ratio else |inbox|) + j;
            0 <= k < |Merge(inbox, hot, ratio)| && Merge(inbox, hot, ratio)[k] == Slot(hot[j], Hot)
  {
    HotLands(inbox, hot, ratio, j);
    MultipleIsProduct(j + 1, ratio);
  }

  // ----- Projections -----

  function Part(slots: seq<Slot>, source: Source): seq<Entry> {
    if slots == [] then []
    else (if slots[0].source == source then [slots[0].entry] else []) + Part(slots[1..], source)
  }

  lemma {:induction false} PartConcat(a: seq<Slot>, b: seq<Slot>, source: Source)
    ensures Part(a + b, source) == Part(a, source) + Part(b, source)
  {
    if a == [] {
      assert a + b == b;
    } else {
      assert (a + b)[0] == a[0] && (a + b)[1..] == a[1..] + b;
      PartConcat(a[1..], b, source);
      var head := if a[0].source == source then [a[0].entry] else [];
      Regroup(head, Part(a[1..], source), [], Part(b, source));
      assert Part(a + b, source) == head + (Part(a[1..], source) + Part(b, source));
    }
  }

  lemma {:induction false} PartTagged(s: seq<Entry>, tag: Source, source: Source)
    ensures Part(Tagged(s, tag), source) == if tag == source then s else []
  {
    if s != [] {
      assert Tagged(s, tag)[1..] == Tagged(s[1..], tag);
      PartTagged(s[1..], tag, source);
    }
  }

  lemma PartsOfTwo(inbox: seq<Entry>, hot: seq<Entry>, source: Source)
    ensures Part(Tagged(inbox, Inbox) + Tagged(hot, Hot), source) == if source == Inbox then inbox else hot
  {
    PartConcat(Tagged(inbox, Inbox), Tagged(hot, Hot), source);
    PartTagged(inbox, Inbox, source);
    PartTagged(hot, Hot, source);
  }

  lemma MergeUnfold(inbox: seq<Entry>, hot: seq<Entry>, ratio: nat)
    requires ratio > 0 && hot != [] && |inbox| >= ratio
    ensures Merge(inbox, hot, ratio) ==
      (Tagged(inbox[..ratio], Inbox) + Tagged(hot[..1], Hot)) + Merge(inbox[ratio..], hot[1..], ratio)
  {
    assert Tagged(hot[..1], Hot) == [Slot(hot[0], Hot)];
  }

  lemma Rejoin<T>(s: seq<T>, k: nat)
    requires k <= |s|
    ensures s[..k] + s[k..] == s
  {
  }

  /** Nothing is lost, added or reordered: each source is a projection of the merge. */
  lemma {:induction false} MergeParts(inbox: seq<Entry>, hot: seq<Entry>, ratio: nat, source: Source)
    requires ratio > 0
    ensures Part(Merge(inbox, hot, ratio), source) == if source == Inbox then inbox else hot
    decreases |hot|
  {
    if hot == [] || |inbox| < ratio {
      PartsOfTwo(inbox, hot, source);
    } else {
      var i1, i2, h1, h2 := inbox[..ratio], inbox[ratio..], hot[..1], hot[1..];
      MergeUnfold(inbox, hot, ratio);
      PartConcat(Tagged(i1, Inbox) + Tagged(h1, Hot), Merge(i2, h2, ratio), source);
      PartsOfTwo(i1, h1, source);
      MergeParts(i2, h2, ratio, source);
      Rejoin(inbox, ratio);
      Rejoin(hot, 1);
    }
  }

  lemma {:induction false} PartSizes(slots: seq<Slot>)
    ensures |Part(slots, Inbox)| + |Part(slots, Hot)| == |slots|
  {
    if slots != [] { PartSizes(slots[1..]); }
  }

  lemma {:induction false} PartMembers(slots: seq<Slot>, source: Source, e: Entry)
    requires e in Part(slots, source)
    ensures Slot(e, source) in slots
  {
    if e !in Part(slots[1..], source) { assert slots[0] == Slot(e, source); }
    else { PartMembers(slots[1..], source, e); }
  }

  lemma {:induction false} PartHolds(slots: seq<Slot>, source: Source, e: Entry)
    requires Slot(e, source) in slots
    ensures e in Part(slots, source)
  {
    if slots[0] != Slot(e, source) { PartHolds(slots[1..], source, e); }
  }
}
