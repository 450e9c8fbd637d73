/**
  Replica selection: the dictionary's items are sorted by score, highest
  first, and the ids of the first `replication_factor` items are the targets.

  Python's sort is stable, also with `reverse=True`: entries with equal scores
  keep the order they had in the dictionary, that is, insertion order.  The
  sort is modelled as an insertion sort that places each entry before the
  entries it ties with.
 */
module Selection {
  import opened Wrappers
  import opened ScoreTable

  /** Sorted by score, highest first. */
  ghost predicate Descending(s: seq<Entry>)
  {
    forall i, j :: 0 <= i < j < |s| ==> s[i].score >= s[j].score
  }

  /** The entries with score `v`, in their order in `s`. */
  function WithScore(s: seq<Entry>, v: real): seq<Entry>
  {
    if s == [] then []
    else (if s[0].score == v then [s[0]] else []) + WithScore(s[1..], v)
  }

  /**
    Inserts `x` into a list sorted by descending score, in front of the first
    entry whose score is not above `x`'s: ahead of its ties, because `x` came
    first in the input.
   */
  function Insert(x: Entry, t: seq<Entry>): (r: seq<Entry>)
    ensures |r| == |t| + 1
  {
    if t == [] then [x]
    else if x.score >= t[0].score then [x] + t
    else [t[0]] + Insert(x, t[1..])
  }

  /** `sorted(items, key=score, reverse=True)`. */
  function SortDesc(s: seq<Entry>): (r: seq<Entry>)
    ensures |r| == |s|
  {
    if s == [] then [] else Insert(s[0], SortDesc(s[1..]))
  }

  /**
    The length of Python's slice `s[:k]` of a list of length `n`, for any
    integer `k`: the stop is clamped to the list, and a negative stop counts
    from the end.
   */
  function SliceLength(n: nat, k: int): (m: nat)
    ensures m <= n
  {
    if k >= 0 then (if k <= n then k else n)
    else if -k <= n then n + k
    else 0
  }

  /**
    Python's slice rule index by index: position `i` of a list of length `n`
    survives `[:k]` when it is a position of the list and lies before the stop,
    where a negative stop `k` stands for `n + k`.
   */
  ghost predicate SliceKeeps(n: nat, k: int, i: int)
  {
    0 <= i < n && i < (if k >= 0 then k else n + k)
  }

  /** The number of positions below `upto` that `[:k]` keeps. */
  ghost function KeptBelow(n: nat, k: int, upto: nat): nat
    decreases upto
  {
    if upto == 0 then 0
    else KeptBelow(n, k, upto - 1) + (if SliceKeeps(n, k, upto - 1) then 1 else 0)
  }

  /** The kept positions are exactly those below the slice length. */
  lemma SliceLengthKeeps(n: nat, k: int)
    ensures forall i :: 0 <= i < n ==> (i < SliceLength(n, k) <==> SliceKeeps(n, k, i))
  {
  }

  /** Counting the positions below `upto` that survive gives `min(upto, SliceLength(n, k))`. */
  lemma {:induction false} KeptBelowPrefix(n: nat, k: int, upto: nat)
    requires upto <= n
    ensures KeptBelow(n, k, upto) == if upto <= SliceLength(n, k) then upto else SliceLength(n, k)
    decreases upto
  {
    if upto > 0 {
      KeptBelowPrefix(n, k, upto - 1);
      SliceLengthKeeps(n, k);
    }
  }

  /** The slice length is the number of positions Python's rule keeps. */
  lemma SliceLengthCounts(n: nat, k: int)
    ensures SliceLength(n, k) == KeptBelow(n, k, n)
    ensures forall i :: 0 <= i < n ==> (i < SliceLength(n, k) <==> SliceKeeps(n, k, i))
  {
    KeptBelowPrefix(n, k, n);
    SliceLengthKeeps(n, k);
  }

  /** The replication targets: the ids of the leading `k` entries of the sorted items. */
  function Select(items: seq<Entry>, k: int): (targets: seq<NodeId>)
    ensures |targets| == SliceLength(|items|, k)
  {
    var sorted := SortDesc(items);
    Ids(sorted[..SliceLength(|sorted|, k)])
  }

  /** Inserting adds exactly one occurrence of `x`. */
  lemma {:induction false} InsertPermutes(x: Entry, t: seq<Entry>)
    ensures multiset(Insert(x, t)) == multiset(t) + multiset{x}
  {
    if t != [] && x.score < t[0].score {
      var t1 := t[1..];
      assert t == [t[0]] + t1;
      assert Insert(x, t) == [t[0]] + Insert(x, t1);
      InsertPermutes(x, t1);
      calc {
        multiset(Insert(x, t));
        multiset([t[0]]) + multiset(Insert(x, t1));
        multiset([t[0]]) + (multiset(t1) + multiset{x});
        (multiset([t[0]]) + multiset(t1)) + multiset{x};
        multiset(t) + multiset{x};
      }
    }
  }

  /** The entries of `Insert(x, t)` are `x` and those of `t`. */
  lemma {:induction false} InsertMembers(x: Entry, t: seq<Entry>)
    ensures forall e :: e in Insert(x, t) <==> e == x || e in t
  {
    if t != [] && x.score < t[0].score {
      InsertMembers(x, t[1..]);
      assert t == [t[0]] + t[1..];
    }
  }

  lemma {:induction false} InsertDescending(x: Entry, t: seq<Entry>)
    requires Descending(t)
    ensures Descending(Insert(x, t))
  {
    if t != [] && x.score < t[0].score {
      var rest := Insert(x, t[1..]);
      InsertDescending(x, t[1..]);
      InsertMembers(x, t[1..]);
      forall k | 0 <= k < |rest| ensures t[0].score >= rest[k].score {
        assert rest[k] in rest;
      }
    }
  }

  /** Sorting is a permutation of the items. */
  lemma {:induction false} SortDescPermutes(s: seq<Entry>)
    ensures multiset(SortDesc(s)) == multiset(s)
  {
    if s != [] {
      SortDescPermutes(s[1..]);
      InsertPermutes(s[0], SortDesc(s[1..]));
      assert s == [s[0]] + s[1..];
    }
  }

  lemma WithScoreCons(x: Entry, t: seq<Entry>, v: real)
    ensures WithScore([x] + t, v) == (if x.score == v then [x] else []) + WithScore(t, v)
  {
    assert ([x] + t)[1..] == t;
  }

  /** `x` joins the entries of its score at their front; the other scores' entries are untouched. */
  lemma {:induction false} InsertStable(x: Entry, t: seq<Entry>, v: real)
    requires Descending(t)
    ensures WithScore(Insert(x, t), v) == (if x.score == v then [x] else []) + WithScore(t, v)
    decreases |t|
  {
    if t == [] {
      WithScoreCons(x, [], v);
    } else if x.score >= t[0].score {
      WithScoreCons(x, t, v);
    } else {
      var t1 := t[1..];
      var r1 := Insert(x, t1);
      assert Insert(x, t) == [t[0]] + r1;
      assert t == [t[0]] + t1;
      assert Descending(t1);
      assert WithScore(r1, v) == (if x.score == v then [x] else []) + WithScore(t1, v) by {
        InsertStable(x, t1, v);
      }
      WithScoreCons(t[0], r1, v);
      WithScoreCons(t[0], t1, v);
      // x's score is below t[0]'s, so at most one of the two has score v
      if x.score == v {
        assert WithScore(Insert(x, t), v) == WithScore(r1, v);
        assert WithScore(t, v) == WithScore(t1, v);
      } else {
        assert WithScore(r1, v) == WithScore(t1, v);
      }
    }
  }

  /** The sorted items are in descending score order. */
  lemma {:induction false} SortDescDescending(s: seq<Entry>)
    ensures Descending(SortDesc(s))
  {
    if s != [] {
      SortDescDescending(s[1..]);
      InsertDescending(s[0], SortDesc(s[1..]));
    }
  }

  /**
    The sort is stable: for every score, the entries with that score come out
    in the order they went in.
   */
  lemma {:induction false} SortDescStable(s: seq<Entry>, v: real)
    ensures WithScore(SortDesc(s), v) == WithScore(s, v)
  {
    if s != [] {
      SortDescStable(s[1..], v);
      SortDescDescending(s[1..]);
      InsertStable(s[0], SortDesc(s[1..]), v);
      WithScoreCons(s[0], s[1..], v);
      assert s == [s[0]] + s[1..];
    }
  }

  lemma DistinctCons(a: NodeId, rest: seq<NodeId>)
    ensures Distinct([a] + rest) <==> a !in rest && Distinct(rest)
  {
    var s := [a] + rest;
    if a !in rest && Distinct(rest) {
      forall i, j | 0 <= i < j < |s| ensures s[i] != s[j] {
        if i > 0 {
          assert s[i] == rest[i - 1] && s[j] == rest[j - 1];
        } else {
          assert s[j] == rest[j - 1];
        }
      }
    }
    if Distinct(s) {
      forall i, j | 0 <= i < j < |rest| ensures rest[i] != rest[j] {
        assert s[i + 1] == rest[i] && s[j + 1] == rest[j];
      }
      forall j | 0 <= j < |rest| ensures rest[j] != a {
        assert s[0] != s[j + 1];
      }
    }
  }

  lemma {:induction false} InsertKeys(x: Entry, t: seq<Entry>)
    requires Distinct(Ids(t)) && x.id !in Ids(t)
    ensures Distinct(Ids(Insert(x, t)))
    ensures Keys(Insert(x, t)) == Keys(t) + {x.id}
    decreases |t|
  {
    if t == [] {
    } else if x.score >= t[0].score {
      assert Ids([x] + t) == [x.id] + Ids(t) by { assert ([x] + t)[1..] == t; }
      DistinctCons(x.id, Ids(t));
    } else {
      var rest := Insert(x, t[1..]);
      assert Ids(t) == [t[0].id] + Ids(t[1..]);
      DistinctCons(t[0].id, Ids(t[1..]));
      InsertKeys(x, t[1..]);
      assert t[0].id !in Keys(rest);
      assert Ids([t[0]] + rest) == [t[0].id] + Ids(rest) by { assert ([t[0]] + rest)[1..] == rest; }
      DistinctCons(t[0].id, Ids(rest));
    }
  }

  /** Sorting neither loses nor duplicates an id. */
  lemma {:induction false} SortDescKeys(s: seq<Entry>)
    requires Distinct(Ids(s))
    ensures Distinct(Ids(SortDesc(s)))
    ensures Keys(SortDesc(s)) == Keys(s)
  {
    if s != [] {
      assert Ids(s) == [s[0].id] + Ids(s[1..]);
      DistinctCons(s[0].id, Ids(s[1..]));
      SortDescKeys(s[1..]);
      assert s[0].id !in Keys(SortDesc(s[1..]));
      InsertKeys(s[0], SortDesc(s[1..]));
    }
  }

  lemma {:induction false} WithScoreMember(s: seq<Entry>, v: real, e: Entry)
    ensures e in WithScore(s, v) <==> e in s && e.score == v
  {
    if s != [] {
      WithScoreMember(s[1..], v, e);
      WithScoreCons(s[0], s[1..], v);
      assert s == [s[0]] + s[1..];
    }
  }

  /** Two entries of score `v` keep their relative order in `WithScore(s, v)`. */
  lemma {:induction false} FilterKeepsOrder(s: seq<Entry>, v: real, a: nat, b: nat) returns (c: nat, d: nat)
    requires a < b < |s| && s[a].score == v && s[b].score == v
    ensures c < d < |WithScore(s, v)|
    ensures WithScore(s, v)[c] == s[a] && WithScore(s, v)[d] == s[b]
    decreases a
  {
    var s1 := s[1..];
    var w1 := WithScore(s1, v);
    var head := if s[0].score == v then [s[0]] else [];
    WithScoreCons(s[0], s1, v);
    assert s == [s[0]] + s1;
    assert WithScore(s, v) == head + w1;
    if a == 0 {
      WithScoreMember(s1, v, s[b]);
      assert s[b] == s1[b - 1];
      var e :| 0 <= e < |w1| && w1[e] == s[b];
      c, d := 0, e + 1;
    } else {
      var c1, d1 := FilterKeepsOrder(s1, v, a - 1, b - 1);
      c, d := c1 + |head|, d1 + |head|;
    }
  }

  /** An order between two entries of `WithScore(s, v)` is their order in `s`. */
  lemma {:induction false} FilterOrderBack(s: seq<Entry>, v: real, c: nat, d: nat) returns (a: nat, b: nat)
    requires c < d < |WithScore(s, v)|
    ensures a < b < |s| && s[a] == WithScore(s, v)[c] && s[b] == WithScore(s, v)[d]
  {
    var s1 := s[1..];
    var w1 := WithScore(s1, v);
    var head := if s[0].score == v then [s[0]] else [];
    WithScoreCons(s[0], s1, v);
    assert s == [s[0]] + s1;
    var w := WithScore(s, v);
    assert w == head + w1;
    if head != [] && c == 0 {
      assert w[0] == s[0] && w[d] == w1[d - 1];
      WithScoreMember(s1, v, w1[d - 1]);
      var e :| 0 <= e < |s1| && s1[e] == w1[d - 1];
      assert s[e + 1] == s1[e];
      a, b := 0, e + 1;
    } else {
      assert w[c] == w1[c - |head|] && w[d] == w1[d - |head|];
      var a1, b1 := FilterOrderBack(s1, v, c - |head|, d - |head|);
      assert s[a1 + 1] == s1[a1] && s[b1 + 1] == s1[b1];
      a, b := a1 + 1, b1 + 1;
    }
  }

  /** Sorting keeps two equal-score entries in their input order. */
  lemma SortKeepsTieOrder(s: seq<Entry>, i: nat, j: nat) returns (a: nat, b: nat)
    requires i < j < |s| && s[i].score == s[j].score
    ensures a < b < |s| && SortDesc(s)[a] == s[i] && SortDesc(s)[b] == s[j]
  {
    var v := s[i].score;
    var c, d := FilterKeepsOrder(s, v, i, j);
    SortDescStable(s, v);
    a, b := FilterOrderBack(SortDesc(s), v, c, d);
  }

  lemma MemberId(items: seq<Entry>, e: Entry) returns (i: nat)
    requires e in items
    ensures i < |items| && items[i] == e && Ids(items)[i] == e.id
  {
    i :| 0 <= i < |items| && items[i] == e;
    IdsAt(items, i);
  }

  /** The entry an item list holds is what `Get` finds under its id. */
  lemma {:induction false} GetMember(items: seq<Entry>, e: Entry)
    requires Distinct(Ids(items)) && e in items
    ensures Get(items, e.id) == Some(e.score)
  {
    var i := MemberId(items, e);
    if i > 0 {
      var rest := items[1..];
      assert Ids(items) == [items[0].id] + Ids(rest);
      DistinctCons(items[0].id, Ids(rest));
      assert e == rest[i - 1];
      var i' := MemberId(rest, e);
      assert items[0].id != e.id;
      GetMember(rest, e);
    }
  }

  /** The targets are the leading ids of the sorted items. */
  lemma SelectIsPrefix(items: seq<Entry>, k: int)
    ensures Select(items, k) == Ids(SortDesc(items))[..SliceLength(|items|, k)]
  {
    var sorted := SortDesc(items);
    var m := SliceLength(|items|, k);
    assert sorted == sorted[..m] + sorted[m..];
    IdsConcat(sorted[..m], sorted[m..]);
  }

  /** The targets are distinct ids of reporting nodes. */
  lemma SelectDistinct(items: seq<Entry>, k: int)
    requires Distinct(Ids(items))
    ensures Distinct(Select(items, k))
    ensures forall id :: id in Select(items, k) ==> id in Ids(items)
  {
    SelectIsPrefix(items, k);
    SortDescKeys(items);
    var ids := Ids(SortDesc(items));
    var m := SliceLength(|items|, k);
    forall id | id in ids[..m] ensures id in Ids(items) {
      assert id in Keys(SortDesc(items));
    }
  }

  /** In a list of distinct ids, the id at position `a` is among the first `m` exactly when `a < m`. */
  lemma PrefixMember(ids: seq<NodeId>, m: nat, a: nat)
    requires Distinct(ids) && a < |ids| && m <= |ids|
    ensures ids[a] in ids[..m] <==> a < m
  {
    if ids[a] in ids[..m] {
      var i :| 0 <= i < m && ids[..m][i] == ids[a];
      assert ids[i] == ids[a];
    }
  }

  lemma PositionInPrefix(s: seq<Entry>, m: nat, a: nat)
    requires Distinct(Ids(s)) && a < |s| && m <= |s|
    ensures s[a].id in Ids(s)[..m] <==> a < m
  {
    IdsAt(s, a);
    PrefixMember(Ids(s), m, a);
  }

  /** At sorted position `a`, an entry is a target exactly when `a` is below the cut. */
  lemma TargetPosition(items: seq<Entry>, k: int, a: nat)
    requires Distinct(Ids(items)) && a < |items|
    ensures SortDesc(items)[a].id in Select(items, k) <==> a < SliceLength(|items|, k)
  {
    var sorted := SortDesc(items);
    var m := SliceLength(|items|, k);
    SelectIsPrefix(items, k);
    SortDescKeys(items);
    PositionInPrefix(sorted, m, a);
  }

  /** Every entry of the items sits somewhere in the sorted items. */
  lemma SortedPosition(items: seq<Entry>, e: Entry) returns (a: nat)
    requires e in items
    ensures a < |items| && SortDesc(items)[a] == e
  {
    SortDescPermutes(items);
    assert e in multiset(SortDesc(items));
    a :| 0 <= a < |SortDesc(items)| && SortDesc(items)[a] == e;
  }

  /** No node left out has a higher score than a selected one. */
  lemma SelectTakesHighest(items: seq<Entry>, k: int)
    requires Distinct(Ids(items))
    ensures forall e, f :: e in items && f in items && e.id in Select(items, k) && f.id !in Select(items, k)
              ==> e.score >= f.score
  {
    forall e, f | e in items && f in items && e.id in Select(items, k) && f.id !in Select(items, k)
      ensures e.score >= f.score
    {
      var a := SortedPosition(items, e);
      var b := SortedPosition(items, f);
      TargetPosition(items, k, a);
      TargetPosition(items, k, b);
      SortDescDescending(items);
    }
  }

  /** The targets come out highest score first. */
  lemma SelectOrdered(items: seq<Entry>, k: int)
    requires Distinct(Ids(items))
    ensures forall id :: id in Select(items, k) ==> id in Ids(items)
    ensures forall i, j :: 0 <= i < j < |Select(items, k)|
              ==> Get(items, Select(items, k)[i]).value >= Get(items, Select(items, k)[j]).value
  {
    SelectDistinct(items, k);
    var sorted := SortDesc(items);
    var targets := Select(items, k);
    SelectIsPrefix(items, k);
    SortDescPermutes(items);
    SortDescDescending(items);
    forall i, j | 0 <= i < j < |targets|
      ensures Get(items, targets[i]).value >= Get(items, targets[j]).value
    {
      IdsAt(sorted, i);
      IdsAt(sorted, j);
      assert sorted[i] in multiset(items) && sorted[j] in multiset(items);
      GetMember(items, sorted[i]);
      GetMember(items, sorted[j]);
    }
  }

  /**
    Ties go to the node that entered the dictionary first: of two nodes with
    equal scores, the later one is selected only if the earlier one is too.
   */
  lemma SelectPrefersEarlierTies(items: seq<Entry>, k: int, i: nat, j: nat)
    requires Distinct(Ids(items))
    requires i < j < |items| && items[i].score == items[j].score
    requires items[j].id in Select(items, k)
    ensures items[i].id in Select(items, k)
  {
    var a, b := SortKeepsTieOrder(items, i, j);
    TargetPosition(items, k, a);
    TargetPosition(items, k, b);
  }

  /** Four nodes, two replicas: the two best scores win, best first. */
  lemma FourNodesTwoReplicas()
    ensures Select([Entry("A", 0.9), Entry("B", 0.7), Entry("C", 0.95), Entry("D", 0.4)], 2) == ["C", "A"]
  {
    var a, b, c, d := Entry("A", 0.9), Entry("B", 0.7), Entry("C", 0.95), Entry("D", 0.4);
    var items := [a, b, c, d];
    assert items[1..] == [b, c, d] && [b, c, d][1..] == [c, d] && [c, d][1..] == [d];
    assert SortDesc([d]) == [d];
    assert SortDesc([c, d]) == Insert(c, [d]) == [c, d];
    assert SortDesc([b, c, d]) == Insert(b, [c, d]) == [c, b, d];
    assert Insert(a, [b, d]) == [a, b, d];
    assert SortDesc(items) == Insert(a, [c, b, d]) == [c, a, b, d];
    assert [c, a, b, d][..2] == [c, a];
    assert Ids([c, a]) == ["C"] + Ids([a]) by { assert [c, a][1..] == [a]; }
  }

  /** Equal scores: whichever node reported first is chosen, whatever its id. */
  lemma TieGoesToFirstReported()
    ensures Select([Entry("A", 0.5), Entry("B", 0.5)], 1) == ["A"]
    ensures Select([Entry("B", 0.5), Entry("A", 0.5)], 1) == ["B"]
  {
  }
}
