/**
 * List operations behind the keyed record store: every collection is one list
 * of records, and a record is identified by its `id` (given here by `key`).
 */
module Records {
  import opened Wrappers

  /** Array `find` by id: the first record with that id, or `None`. */
  function Find<R>(rs: seq<R>, id: string, key: R -> string): (r: Option<R>)
    ensures r.None? <==> forall i :: 0 <= i < |rs| ==> key(rs[i]) != id
    ensures r.Some? ==> key(r.value) == id && r.value in rs
  {
    if |rs| == 0 then None
    else if key(rs[0]) == id then Some(rs[0])
    else Find(rs[1..], id, key)
  }

  /** Array `map` that swaps in `r` for every record with `r`'s id. */
  function ReplaceById<R>(rs: seq<R>, r: R, key: R -> string): (out: seq<R>)
    ensures |out| == |rs|
    ensures forall i :: 0 <= i < |rs| ==> out[i] == r || out[i] == rs[i]
  {
    if |rs| == 0 then []
    else [if key(rs[0]) == key(r) then r else rs[0]] + ReplaceById(rs[1..], r, key)
  }

  /**
   * Insert-or-replace by id, as `savePlayer` and `saveGame` do it. The list
   * grows by at most one, every entry with another id keeps its position,
   * and nothing but `r` is new.
   */
  function Upsert<R>(rs: seq<R>, r: R, key: R -> string): (out: seq<R>)
    ensures |rs| <= |out| <= |rs| + 1
    ensures forall i :: 0 <= i < |rs| && key(rs[i]) != key(r) ==> out[i] == rs[i]
    ensures forall i :: 0 <= i < |out| ==> out[i] == r || (i < |rs| && out[i] == rs[i])
  {
    ReplaceByIdAt(rs, r, key);
    if Find(rs, key(r), key).Some? then ReplaceById(rs, r, key) else rs + [r]
  }

  /** Array `filter` that keeps the records whose id differs from `id`. */
  function RemoveById<R(==)>(rs: seq<R>, id: string, key: R -> string): (out: seq<R>)
    ensures |out| <= |rs|
    ensures forall i :: 0 <= i < |out| ==> out[i] in rs && key(out[i]) != id
    ensures forall i :: 0 <= i < |rs| && key(rs[i]) != id ==> rs[i] in out
  {
    if |rs| == 0 then []
    else (if key(rs[0]) == id then [] else [rs[0]]) + RemoveById(rs[1..], id, key)
  }

  /** No two records of the list share an id. */
  predicate DistinctKeys<R>(rs: seq<R>, key: R -> string)
  {
    forall i, j :: 0 <= i < j < |rs| ==> key(rs[i]) != key(rs[j])
  }

  /** `a` is `b` with some elements dropped and the rest kept in order. */
  predicate IsSubsequence<R(==)>(a: seq<R>, b: seq<R>)
    decreases |b|
  {
    if |a| == 0 then true
    else if |b| == 0 then false
    else if a[0] == b[0] then IsSubsequence(a[1..], b[1..])
    else IsSubsequence(a, b[1..])
  }

  // ---------------------------------------------------------------- find

  /** `find` returns the record at the first position whose id matches. */
  lemma {:induction false} FindIsFirst<R>(rs: seq<R>, id: string, key: R -> string, k: nat)
    requires k < |rs| && key(rs[k]) == id
    requires forall j :: 0 <= j < k ==> key(rs[j]) != id
    ensures Find(rs, id, key) == Some(rs[k])
  {
    if k > 0 {
      assert key(rs[0]) != id;
      FindIsFirst(rs[1..], id, key, k - 1);
    }
  }

  /** Appending a record only matters to `find` when nothing earlier matched. */
  lemma {:induction false} FindAppend<R>(rs: seq<R>, r: R, id: string, key: R -> string)
    ensures Find(rs + [r], id, key) ==
            if Find(rs, id, key).Some? then Find(rs, id, key)
            else if key(r) == id then Some(r) else None
  {
    if |rs| > 0 {
      assert (rs + [r])[1..] == rs[1..] + [r];
      FindAppend(rs[1..], r, id, key);
    }
  }

  // ---------------------------------------------------------------- replace

  /** Position by position, the replacement swaps in `r` exactly where the id matches. */
  lemma {:induction false} ReplaceByIdAt<R>(rs: seq<R>, r: R, key: R -> string)
    ensures forall i :: 0 <= i < |rs| ==>
      ReplaceById(rs, r, key)[i] == if key(rs[i]) == key(r) then r else rs[i]
  {
    if |rs| > 0 {
      ReplaceByIdAt(rs[1..], r, key);
      var out := ReplaceById(rs, r, key);
      forall i | 0 < i < |rs|
        ensures out[i] == if key(rs[i]) == key(r) then r else rs[i]
      {
        assert out[i] == ReplaceById(rs[1..], r, key)[i - 1];
      }
    }
  }

  /** Replacing by `r`'s id does not change what `find` sees for any other id. */
  lemma {:induction false} ReplaceByIdFindOther<R>(rs: seq<R>, r: R, id: string, key: R -> string)
    requires id != key(r)
    ensures Find(ReplaceById(rs, r, key), id, key) == Find(rs, id, key)
  {
    if |rs| > 0 {
      var out := ReplaceById(rs, r, key);
      assert out[1..] == ReplaceById(rs[1..], r, key);
      ReplaceByIdFindOther(rs[1..], r, id, key);
    }
  }

  // ---------------------------------------------------------------- upsert

  /** Saving a record whose id is present keeps length and order and replaces exactly the entries with that id. */
  lemma UpsertExisting<R>(rs: seq<R>, r: R, key: R -> string)
    requires exists i :: 0 <= i < |rs| && key(rs[i]) == key(r)
    ensures |Upsert(rs, r, key)| == |rs|
    ensures forall i :: 0 <= i < |rs| ==>
      Upsert(rs, r, key)[i] == if key(rs[i]) == key(r) then r else rs[i]
  {
    ReplaceByIdAt(rs, r, key);
  }

  /** Saving a record whose id is absent appends it at the end. */
  lemma UpsertAbsent<R>(rs: seq<R>, r: R, key: R -> string)
    requires forall i :: 0 <= i < |rs| ==> key(rs[i]) != key(r)
    ensures Upsert(rs, r, key) == rs + [r]
  {
  }

  /** Round trip: after saving `r`, finding `r`'s id gives back `r`. */
  lemma UpsertThenFind<R>(rs: seq<R>, r: R, key: R -> string)
    ensures Find(Upsert(rs, r, key), key(r), key) == Some(r)
  {
    var out := Upsert(rs, r, key);
    if Find(rs, key(r), key).Some? {
      ReplaceByIdAt(rs, r, key);
    } else {
      FindAppend(rs, r, key(r), key);
    }
    var found := Find(out, key(r), key);
    var k :| 0 <= k < |out| && out[k] == found.value;
  }

  /** Saving `r` does not change what `find` returns for any other id. */
  lemma UpsertFindOther<R>(rs: seq<R>, r: R, id: string, key: R -> string)
    requires id != key(r)
    ensures Find(Upsert(rs, r, key), id, key) == Find(rs, id, key)
  {
    if Find(rs, key(r), key).Some? {
      ReplaceByIdFindOther(rs, r, id, key);
    } else {
      FindAppend(rs, r, id, key);
    }
  }

  /** Saving keeps the ids of the list pairwise distinct. */
  lemma UpsertKeepsDistinct<R>(rs: seq<R>, r: R, key: R -> string)
    requires DistinctKeys(rs, key)
    ensures DistinctKeys(Upsert(rs, r, key), key)
  {
    var out := Upsert(rs, r, key);
    if Find(rs, key(r), key).Some? {
      ReplaceByIdAt(rs, r, key);
      forall i, j | 0 <= i < j < |out| ensures key(out[i]) != key(out[j]) {
        assert key(out[i]) == key(rs[i]) && key(out[j]) == key(rs[j]);
      }
    } else {
      forall i, j | 0 <= i < j < |out| ensures key(out[i]) != key(out[j]) {
        if j == |rs| {
          assert out[i] == rs[i];
        } else {
          assert out[i] == rs[i] && out[j] == rs[j];
        }
      }
    }
  }

  /** Saving the same record twice is the same as saving it once. */
  lemma UpsertIdempotent<R>(rs: seq<R>, r: R, key: R -> string)
    ensures Upsert(Upsert(rs, r, key), r, key) == Upsert(rs, r, key)
  {
    var once := Upsert(rs, r, key);
    UpsertThenFind(rs, r, key);
    ReplaceByIdAt(once, r, key);
    var twice := ReplaceById(once, r, key);
    assert |twice| == |once|;
    forall i | 0 <= i < |once| ensures twice[i] == once[i] {
      if key(once[i]) == key(r) {
        if once[i] != r {
          assert i < |rs| && once[i] == rs[i];
          if Find(rs, key(r), key).Some? {
            ReplaceByIdAt(rs, r, key);
          }
        }
      }
    }
  }

  // ---------------------------------------------------------------- remove

  /** Removing an id that is not there leaves the list unchanged. */
  lemma {:induction false} RemoveAbsent<R>(rs: seq<R>, id: string, key: R -> string)
    requires forall i :: 0 <= i < |rs| ==> key(rs[i]) != id
    ensures RemoveById(rs, id, key) == rs
  {
    if |rs| > 0 {
      RemoveAbsent(rs[1..], id, key);
    }
  }

  /** Deleting twice is the same as deleting once. */
  lemma RemoveIdempotent<R>(rs: seq<R>, id: string, key: R -> string)
    ensures RemoveById(RemoveById(rs, id, key), id, key) == RemoveById(rs, id, key)
  {
    var once := RemoveById(rs, id, key);
    RemoveAbsent(once, id, key);
  }

  /** The records that survive a delete keep their original order. */
  lemma {:induction false} RemoveIsSubsequence<R>(rs: seq<R>, id: string, key: R -> string)
    ensures IsSubsequence(RemoveById(rs, id, key), rs)
  {
    if |rs| > 0 {
      RemoveIsSubsequence(rs[1..], id, key);
      var rest := RemoveById(rs[1..], id, key);
      if key(rs[0]) == id {
        assert RemoveById(rs, id, key) == rest;
        SubsequenceOfTail(rest, rs);
      } else {
        var out := RemoveById(rs, id, key);
        assert out[0] == rs[0] && out[1..] == rest;
      }
    }
  }

  /** A subsequence of the tail is a subsequence of the whole list. */
  lemma {:induction false} SubsequenceOfTail<R>(a: seq<R>, b: seq<R>)
    requires |b| > 0 && IsSubsequence(a, b[1..])
    ensures IsSubsequence(a, b)
    decreases |a| + |b|
  {
    if |a| > 0 && a[0] == b[0] {
      SubsequenceDropHead(a, b[1..]);
    }
  }

  /** Dropping the first element keeps a subsequence a subsequence. */
  lemma {:induction false} SubsequenceDropHead<R>(a: seq<R>, b: seq<R>)
    requires |a| > 0 && IsSubsequence(a, b)
    ensures IsSubsequence(a[1..], b)
    decreases |a| + |b|
  {
    assert |b| > 0;
    if a[0] == b[0] {
      SubsequenceOfTail(a[1..], b);
    } else {
      SubsequenceDropHead(a, b[1..]);
      SubsequenceOfTail(a[1..], b);
    }
  }

  /** Deleting from a concatenation deletes from each part separately. */
  lemma {:induction false} RemoveAppend<R>(a: seq<R>, b: seq<R>, id: string, key: R -> string)
    ensures RemoveById(a + b, id, key) == RemoveById(a, id, key) + RemoveById(b, id, key)
  {
    if |a| > 0 {
      assert (a + b)[1..] == a[1..] + b;
      RemoveAppend(a[1..], b, id, key);
    } else {
      assert a + b == b;
    }
  }

  /** Deleting one id does not change what `find` returns for any other id. */
  lemma {:induction false} RemoveFindOther<R>(rs: seq<R>, id: string, other: string, key: R -> string)
    requires other != id
    ensures Find(RemoveById(rs, id, key), other, key) == Find(rs, other, key)
  {
    if |rs| > 0 {
      RemoveFindOther(rs[1..], id, other, key);
      var rest := RemoveById(rs[1..], id, key);
      var out := RemoveById(rs, id, key);
      if key(rs[0]) == id {
        assert out == rest;
        assert Find(rs, other, key) == Find(rs[1..], other, key);
      } else {
        assert out == [rs[0]] + rest;
        assert out[0] == rs[0] && out[1..] == rest;
      }
    }
  }

  /** Every list is a subsequence of itself. */
  lemma {:induction false} SubsequenceRefl<R>(a: seq<R>)
    ensures IsSubsequence(a, a)
  {
    if |a| > 0 {
      SubsequenceRefl(a[1..]);
    }
  }
}
