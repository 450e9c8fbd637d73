/**
  The coordinator's `node_scores` dictionary.

  A Python `dict` remembers the order in which its keys were first inserted,
  and `sorted(node_scores.items(), ...)` sees the items in that order, so the
  order decides how ties are broken during selection.  The dictionary is
  therefore modelled as its item list: a sequence of entries whose ids are
  pairwise distinct.  Assigning to an existing key overwrites the value in
  place; assigning to a new key appends an entry.
 */
module ScoreTable {
  import opened Wrappers

  type NodeId = string

  /** One `(node_id, score)` item of the dictionary. */
  datatype Entry = Entry(id: NodeId, score: real)

  /** The keys of the dictionary, in insertion order. */
  function Ids(items: seq<Entry>): (ids: seq<NodeId>)
    ensures |ids| == |items|
  {
    if items == [] then [] else [items[0].id] + Ids(items[1..])
  }

  lemma {:induction false} IdsAt(items: seq<Entry>, i: nat)
    requires i < |items|
    ensures Ids(items)[i] == items[i].id
  {
    if i > 0 {
      IdsAt(items[1..], i - 1);
    }
  }

  lemma {:induction false} IdsConcat(a: seq<Entry>, b: seq<Entry>)
    ensures Ids(a + b) == Ids(a) + Ids(b)
  {
    if a == [] {
      assert a + b == b;
    } else {
      assert (a + b)[1..] == a[1..] + b;
      IdsConcat(a[1..], b);
    }
  }

  /** The keys of all but the last item, and the last key. */
  lemma IdsSnoc(items: seq<Entry>)
    requires items != []
    ensures Ids(items) == Ids(items[..|items| - 1]) + [items[|items| - 1].id]
  {
    var n := |items| - 1;
    var front, last := items[..n], [items[n]];
    assert front + last == items;
    assert last[1..] == [];
    assert Ids(last) == [items[n].id];
    IdsConcat(front, last);
  }

  /** The set of ids after appending one. */
  lemma AppendKeys(ids: seq<NodeId>, id: NodeId)
    ensures (set x | x in ids + [id]) == (set x | x in ids) + {id}
  {
    forall x ensures x in ids + [id] <==> x in ids || x == id {
      assert x in ids + [id] <==> x in ids || x in [id];
    }
  }

  /** The prefix order on key lists is transitive. */
  lemma PrefixTrans(a: seq<NodeId>, b: seq<NodeId>, c: seq<NodeId>)
    requires a <= b && b <= c
    ensures a <= c
  {
    assert a == b[..|a|];
    assert b[..|a|] == c[..|b|][..|a|];
  }

  /** No id occurs twice: the item list of a well-formed dictionary. */
  predicate Distinct(ids: seq<NodeId>)
  {
    forall i, j :: 0 <= i < j < |ids| ==> ids[i] != ids[j]
  }

  /** The set of keys of the dictionary. */
  function Keys(items: seq<Entry>): set<NodeId>
  {
    set id | id in Ids(items)
  }

  /** `node_scores.get(id)`: the score stored under `id`, if any. */
  function Get(items: seq<Entry>, id: NodeId): (r: Option<real>)
    ensures r.Some? <==> id in Ids(items)
    ensures r.Some? ==> Entry(id, r.value) in items
  {
    if items == [] then None
    else if items[0].id == id then Some(items[0].score)
    else Get(items[1..], id)
  }

  /**
    `node_scores[id] = score`: the key gets the new value and the key order
    only changes by appending a new key.
   */
  function Put(items: seq<Entry>, id: NodeId, score: real): (r: seq<Entry>)
    ensures Ids(r) == if id in Ids(items) then Ids(items) else Ids(items) + [id]
    ensures Get(r, id) == Some(score)
  {
    if items == [] then [Entry(id, score)]
    else if items[0].id == id then
      var r := [Entry(id, score)] + items[1..];
      assert r[1..] == items[1..];
      r
    else
      var rest := Put(items[1..], id, score);
      var r := [items[0]] + rest;
      assert r[1..] == rest;
      r
  }

  /** Storing under `id` leaves the value of every other key as it was. */
  lemma {:induction false} PutKeepsOthers(items: seq<Entry>, id: NodeId, score: real, k: NodeId)
    requires k != id
    ensures Get(Put(items, id, score), k) == Get(items, k)
    decreases |items|
  {
    if items != [] && items[0].id != id {
      PutKeepsOthers(items[1..], id, score, k);
      assert Put(items, id, score)[1..] == Put(items[1..], id, score);
    } else if items != [] {
      assert Put(items, id, score)[1..] == items[1..];
    }
  }

  /** Overwriting a key never creates a duplicate key. */
  lemma PutKeepsDistinct(items: seq<Entry>, id: NodeId, score: real)
    requires Distinct(Ids(items))
    ensures Distinct(Ids(Put(items, id, score)))
    ensures Keys(Put(items, id, score)) == Keys(items) + {id}
    ensures |Put(items, id, score)| == |items| + (if id in Ids(items) then 0 else 1)
  {
    var ids := Ids(items);
    if id !in ids {
      AppendFresh(ids, id);
    }
  }

  /** Appending an id that is not yet present keeps the ids distinct and adds it to the key set. */
  lemma AppendFresh(ids: seq<NodeId>, id: NodeId)
    requires Distinct(ids) && id !in ids
    ensures Distinct(ids + [id])
    ensures (set x | x in ids + [id]) == (set x | x in ids) + {id}
  {
    var ids' := ids + [id];
    forall i, j | 0 <= i < j < |ids'| ensures ids'[i] != ids'[j] {
      assert ids'[i] == ids[i];
    }
    AppendKeys(ids, id);
  }

  /** The dictionary after storing a batch of entries in order (a fold of `Put`). */
  function PutAll(items: seq<Entry>, batch: seq<Entry>): seq<Entry>
    decreases |batch|
  {
    if batch == [] then items
    else
      var last := batch[|batch| - 1];
      Put(PutAll(items, batch[..|batch| - 1]), last.id, last.score)
  }

  /** The score of the last entry for `id` in `batch`, if there is one. */
  function LastScore(batch: seq<Entry>, id: NodeId): (r: Option<real>)
    ensures r.Some? <==> id in Ids(batch)
  {
    if batch == [] then None
    else
      IdsSnoc(batch);
      if batch[|batch| - 1].id == id then Some(batch[|batch| - 1].score)
      else LastScore(batch[..|batch| - 1], id)
  }

  /**
    Storing a batch: the last score per id in the batch wins, ids absent from
    the batch keep their old score.
   */
  lemma {:induction false} PutAllLastWins(items: seq<Entry>, batch: seq<Entry>, id: NodeId)
    ensures Get(PutAll(items, batch), id)
         == if id in Ids(batch) then LastScore(batch, id) else Get(items, id)
    decreases |batch|
  {
    if batch != [] {
      var last := batch[|batch| - 1];
      PutAllLastWins(items, batch[..|batch| - 1], id);
      IdsSnoc(batch);
      if last.id != id {
        PutKeepsOthers(PutAll(items, batch[..|batch| - 1]), last.id, last.score, id);
      }
    }
  }

  /**
    Storing a batch only ever adds keys: the old key order is a prefix of the
    new one and the new keys are exactly the old keys plus the batch's ids.
   */
  lemma {:induction false} PutAllOnlyGrows(items: seq<Entry>, batch: seq<Entry>)
    requires Distinct(Ids(items))
    ensures Distinct(Ids(PutAll(items, batch)))
    ensures Ids(items) <= Ids(PutAll(items, batch))
    ensures Keys(PutAll(items, batch)) == Keys(items) + Keys(batch)
    decreases |batch|
  {
    if batch != [] {
      var front := batch[..|batch| - 1];
      var last := batch[|batch| - 1];
      var before := PutAll(items, front);
      var after := PutAll(items, batch);
      assert after == Put(before, last.id, last.score);
      PutAllOnlyGrows(items, front);
      PutKeepsDistinct(before, last.id, last.score);
      assert Keys(batch) == Keys(front) + {last.id} by {
        IdsSnoc(batch);
        AppendKeys(Ids(front), last.id);
      }
      assert Ids(before) <= Ids(after);
      PrefixTrans(Ids(items), Ids(before), Ids(after));
    }
  }

  /** With distinct ids the number of items is the number of keys: `len(node_scores)`. */
  lemma {:induction false} DistinctCount(items: seq<Entry>)
    requires Distinct(Ids(items))
    ensures |Keys(items)| == |items|
  {
    if items != [] {
      var rest := items[1..];
      var ids := Ids(items);
      assert ids == [items[0].id] + Ids(rest);
      assert ids[1..] == Ids(rest);
      DistinctTail(ids);
      DistinctCount(rest);
      assert Keys(items) == Keys(rest) + {items[0].id} by {
        ConsKeys(items[0].id, Ids(rest));
      }
    }
  }

  /** The tail of a distinct list is distinct and does not contain the head. */
  lemma DistinctTail(ids: seq<NodeId>)
    requires ids != [] && Distinct(ids)
    ensures Distinct(ids[1..]) && ids[0] !in ids[1..]
  {
    var rest := ids[1..];
    forall i, j | 0 <= i < j < |rest| ensures rest[i] != rest[j] {
      assert rest[i] == ids[i + 1] && rest[j] == ids[j + 1];
    }
    forall i | 0 <= i < |rest| ensures rest[i] != ids[0] {
      assert rest[i] == ids[i + 1];
    }
  }

  /** The set of ids of a list with one more id in front. */
  lemma ConsKeys(id: NodeId, ids: seq<NodeId>)
    ensures (set x | x in [id] + ids) == (set x | x in ids) + {id}
  {
    forall x ensures x in [id] + ids <==> x in ids || x == id {
      assert x in [id] + ids <==> x in [id] || x in ids;
    }
  }

  /**
    Round completion: when every reported id is a known node and the number
    of entries equals the number of known nodes, every known node has reported.
   */
  lemma AllReported(items: seq<Entry>, known: set<NodeId>)
    requires Distinct(Ids(items))
    requires Keys(items) <= known
    requires |items| == |known|
    ensures Keys(items) == known
  {
    DistinctCount(items);
    SameSizeSubset(Keys(items), known);
  }

  lemma SameSizeSubset<T>(a: set<T>, b: set<T>)
    requires a <= b && |a| == |b|
    ensures a == b
  {
    var missing := b - a;
    assert b == a + missing;
    assert |b| == |a| + |missing|;
    assert missing == {};
  }
}
