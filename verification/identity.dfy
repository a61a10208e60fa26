/**
 Deduplication by object identity. In Python, a membership test among objects
 that define no `__eq__` compares identities; here every entity carries an
 identity token obtained through `key`, and two entities are "the same"
 exactly when their tokens are equal, whatever their names.
 */
module Identity {

  /** The identity token of a constructed object. */
  type Id = int

  /** The identities present in `s`. */
  function Ids<T>(s: seq<T>, key: T -> Id): set<Id>
  {
    set i | 0 <= i < |s| :: key(s[i])
  }

  /** No identity occurs twice in `s`. */
  ghost predicate Unique<T>(s: seq<T>, key: T -> Id)
  {
    forall i, j :: 0 <= i < j < |s| ==> key(s[i]) != key(s[j])
  }

  lemma IdsConcat<T>(a: seq<T>, b: seq<T>, key: T -> Id)
    ensures Ids(a + b, key) == Ids(a, key) + Ids(b, key)
  {
    forall k | k in Ids(a + b, key)
      ensures k in Ids(a, key) + Ids(b, key)
    {
      var i :| 0 <= i < |a + b| && key((a + b)[i]) == k;
      if i >= |a| {
        assert b[i - |a|] == (a + b)[i];
      }
    }
    forall k | k in Ids(a, key) + Ids(b, key)
      ensures k in Ids(a + b, key)
    {
      if k in Ids(a, key) {
        var i :| 0 <= i < |a| && key(a[i]) == k;
        assert (a + b)[i] == a[i];
      } else {
        var i :| 0 <= i < |b| && key(b[i]) == k;
        assert (a + b)[|a| + i] == b[i];
      }
    }
  }

  /**
   Scan the input left to right and keep each element whose identity is not
   among those kept so far, as `mle`'s `get_vars` and `get_params` do.
   The result holds each identity of `s` exactly once.
   */
  function Dedup<T>(s: seq<T>, key: T -> Id): (r: seq<T>)
    ensures Ids(r, key) == Ids(s, key)
    ensures Unique(r, key)
    decreases |s|
  {
    if |s| == 0 then []
    else
      var prefix := Dedup(s[..|s| - 1], key);
      var e := s[|s| - 1];
      assert s == s[..|s| - 1] + [e];
      IdsConcat(s[..|s| - 1], [e], key);
      if key(e) in Ids(prefix, key) then prefix
      else
        IdsConcat(prefix, [e], key);
        assert forall i :: 0 <= i < |prefix| ==> key(prefix[i]) in Ids(prefix, key);
        prefix + [e]
  }

  /** Appending one element: it is kept exactly when its identity is new. */
  lemma DedupSnoc<T>(s: seq<T>, e: T, key: T -> Id)
    ensures Dedup(s + [e], key) ==
      if key(e) in Ids(s, key) then Dedup(s, key) else Dedup(s, key) + [e]
  {
    assert (s + [e])[..|s + [e]| - 1] == s;
  }

  /** Deduplication only depends on what was kept from the prefix. */
  lemma {:induction false} DedupExtend<T>(p: seq<T>, q: seq<T>, y: seq<T>, key: T -> Id)
    requires Dedup(p, key) == Dedup(q, key)
    ensures Dedup(p + y, key) == Dedup(q + y, key)
    decreases |y|
  {
    if |y| > 0 {
      var y', e := y[..|y| - 1], y[|y| - 1];
      assert y == y' + [e];
      DedupExtend(p, q, y', key);
      assert p + y == (p + y') + [e];
      assert q + y == (q + y') + [e];
      DedupSnoc(p + y', e, key);
      DedupSnoc(q + y', e, key);
    } else {
      assert p + y == p && q + y == q;
    }
  }

  /** Deduplicating a suffix first changes nothing. */
  lemma {:induction false} DedupAbsorb<T>(x: seq<T>, b: seq<T>, key: T -> Id)
    ensures Dedup(x + Dedup(b, key), key) == Dedup(x + b, key)
    decreases |b|
  {
    if |b| == 0 {
      assert x + b == x && x + Dedup(b, key) == x;
    } else {
      var b', e := b[..|b| - 1], b[|b| - 1];
      var d := Dedup(b', key);
      assert b == b' + [e];
      assert x + b == (x + b') + [e];
      DedupAbsorb(x, b', key);
      DedupSnoc(b', e, key);
      if key(e) in Ids(b', key) {
        IdsConcat(x, b', key);
        DedupSnocSeen(x + b', e, key);
      } else {
        assert x + Dedup(b, key) == (x + d) + [e];
        DedupExtend(x + d, x + b', [e], key);
      }
    }
  }

  /** Concatenation is associative. */
  lemma ConcatAssoc<T>(a: seq<T>, b: seq<T>, c: seq<T>)
    ensures a + (b + c) == a + b + c
  {
  }

  /** Deduplicating the two halves separately and then the whole is the same as deduplicating the whole. */
  lemma DedupConcatDedup<T>(x: seq<T>, b: seq<T>, y: seq<T>, key: T -> Id)
    ensures Dedup(x + Dedup(b, key) + y, key) == Dedup(x + b + y, key)
  {
    DedupAbsorb(x, b, key);
    DedupExtend(x + Dedup(b, key), x + b, y, key);
  }

  /** The position of the first element of `s` whose identity is `k`. */
  function FirstIndex<T>(s: seq<T>, k: Id, key: T -> Id): (i: nat)
    requires k in Ids(s, key)
    ensures i < |s| && key(s[i]) == k
    ensures forall j :: 0 <= j < i ==> key(s[j]) != k
  {
    if key(s[0]) == k then 0
    else
      assert s == [s[0]] + s[1..];
      IdsConcat([s[0]], s[1..], key);
      1 + FirstIndex(s[1..], k, key)
  }

  /**
   First-seen order: every element kept is the first occurrence of its
   identity, and the kept elements appear in the order their identities were
   first met.
   */
  ghost predicate FirstSeen<T>(r: seq<T>, s: seq<T>, key: T -> Id)
    requires Ids(r, key) <= Ids(s, key)
  {
    && (forall i {:trigger r[i]} :: 0 <= i < |r| ==>
          key(r[i]) in Ids(r, key) && r[i] == s[FirstIndex(s, key(r[i]), key)])
    && (forall i, j {:trigger r[i], r[j]} :: 0 <= i < j < |r| ==>
          key(r[i]) in Ids(r, key) && key(r[j]) in Ids(r, key) &&
          FirstIndex(s, key(r[i]), key) < FirstIndex(s, key(r[j]), key))
  }

  lemma FirstIndexSnoc<T>(s: seq<T>, e: T, k: Id, key: T -> Id)
    requires k in Ids(s, key)
    ensures k in Ids(s + [e], key)
    ensures FirstIndex(s + [e], k, key) == FirstIndex(s, k, key)
  {
    IdsConcat(s, [e], key);
    var i, i' := FirstIndex(s, k, key), FirstIndex(s + [e], k, key);
    assert (s + [e])[i] == s[i];
  }

  lemma {:induction false} DedupFirstSeen<T>(s: seq<T>, key: T -> Id)
    ensures FirstSeen(Dedup(s, key), s, key)
    decreases |s|
  {
    if |s| > 0 {
      var s', e := s[..|s| - 1], s[|s| - 1];
      assert s == s' + [e];
      DedupFirstSeen(s', key);
      DedupSnoc(s', e, key);
      if key(e) in Ids(s', key) {
        FirstSeenSnocSeen(Dedup(s', key), s', e, key);
      } else {
        FirstSeenSnocNew(Dedup(s', key), s', e, key);
      }
    }
  }

  /** An element whose identity was already met leaves the first-seen list valid for the longer input. */
  lemma FirstSeenSnocSeen<T>(r: seq<T>, s: seq<T>, e: T, key: T -> Id)
    requires Ids(r, key) == Ids(s, key)
    requires FirstSeen(r, s, key)
    requires key(e) in Ids(s, key)
    ensures Ids(r, key) <= Ids(s + [e], key)
    ensures FirstSeen(r, s + [e], key)
  {
    IdsConcat(s, [e], key);
    forall k | k in Ids(s, key)
      ensures FirstIndex(s + [e], k, key) == FirstIndex(s, k, key)
    {
      FirstIndexSnoc(s, e, k, key);
    }
    assert forall i :: 0 <= i < |r| ==> key(r[i]) in Ids(r, key);
  }

  /** An element with a new identity is appended, and comes after everything met before it. */
  lemma FirstSeenSnocNew<T>(r: seq<T>, s: seq<T>, e: T, key: T -> Id)
    requires Ids(r, key) == Ids(s, key)
    requires FirstSeen(r, s, key)
    requires key(e) !in Ids(s, key)
    ensures Ids(r + [e], key) <= Ids(s + [e], key)
    ensures FirstSeen(r + [e], s + [e], key)
  {
    var s2, r2 := s + [e], r + [e];
    IdsConcat(s, [e], key);
    IdsConcat(r, [e], key);
    forall k | k in Ids(s, key)
      ensures FirstIndex(s2, k, key) == FirstIndex(s, k, key)
    {
      FirstIndexSnoc(s, e, k, key);
    }
    assert key(e) in Ids(s2, key) by { assert s2[|s|] == e; }
    assert FirstIndex(s2, key(e), key) == |s|;
    assert forall i :: 0 <= i < |r| ==> key(r[i]) in Ids(r, key);
    forall i | 0 <= i < |r2|
      ensures r2[i] == s2[FirstIndex(s2, key(r2[i]), key)]
    {
      if i < |r| {
        assert r2[i] == r[i];
      }
    }
    forall i, j | 0 <= i < j < |r2|
      ensures FirstIndex(s2, key(r2[i]), key) < FirstIndex(s2, key(r2[j]), key)
    {
      assert r2[i] == r[i];
      if j < |r| {
        assert r2[j] == r[j];
      }
    }
  }

  /** A list without repeated identities is left as it is; in particular deduplication is idempotent. */
  lemma {:induction false} DedupOfUnique<T>(s: seq<T>, key: T -> Id)
    requires Unique(s, key)
    ensures Dedup(s, key) == s
    decreases |s|
  {
    if |s| > 0 {
      var s', e := s[..|s| - 1], s[|s| - 1];
      assert s == s' + [e];
      DedupOfUnique(s', key);
      DedupSnoc(s', e, key);
    }
  }

  /** The first element is always kept, in first place. */
  lemma {:induction false} DedupKeepsHead<T>(s: seq<T>, key: T -> Id)
    requires |s| > 0
    ensures |Dedup(s, key)| > 0 && Dedup(s, key)[0] == s[0]
    decreases |s|
  {
    if |s| == 1 {
      assert s[..0] == [];
    } else {
      var s', e := s[..|s| - 1], s[|s| - 1];
      assert s == s' + [e];
      DedupKeepsHead(s', key);
      DedupSnoc(s', e, key);
    }
  }

  /** Appending an identity already present leaves the deduplication unchanged. */
  lemma DedupSnocSeen<T>(s: seq<T>, e: T, key: T -> Id)
    requires key(e) in Ids(s, key)
    ensures Dedup(s + [e], key) == Dedup(s, key)
  {
    DedupSnoc(s, e, key);
  }

  /** Appending a new identity appends it to the deduplication. */
  lemma DedupSnocNew<T>(s: seq<T>, e: T, key: T -> Id)
    requires key(e) !in Ids(s, key)
    ensures Dedup(s + [e], key) == Dedup(s, key) + [e]
  {
    DedupSnoc(s, e, key);
  }

  /** The identities of `s + [e]` are those of `s` and `e`'s. */
  lemma IdsSnoc<T>(s: seq<T>, e: T, key: T -> Id)
    ensures Ids(s + [e], key) == Ids(s, key) + {key(e)}
  {
    IdsConcat(s, [e], key);
    assert key([e][0]) in Ids([e], key);
  }

  /** A repeat followed by a new identity: the repeat is dropped, the new one kept. */
  lemma DedupRepeatThenNew<T>(s: seq<T>, a: T, b: T, key: T -> Id)
    requires Unique(s, key)
    requires key(a) in Ids(s, key) && key(b) !in Ids(s, key)
    ensures Dedup(s + [a] + [b], key) == s + [b]
  {
    DedupOfUnique(s, key);
    DedupSnocSeen(s, a, key);
    IdsSnoc(s, a, key);
    DedupSnocNew(s + [a], b, key);
  }

  /** In a list without repeated identities, an identity fixes its position. */
  lemma UniqueIndex<T>(s: seq<T>, key: T -> Id, i: nat, j: nat)
    requires Unique(s, key)
    requires i < |s| && j < |s| && key(s[i]) == key(s[j])
    ensures i == j
  {
  }

  /** In a list without repeated identities, an identity that occurs does so at exactly one position. */
  lemma UniqueOccursOnce<T>(s: seq<T>, key: T -> Id, k: Id)
    requires Unique(s, key) && k in Ids(s, key)
    ensures exists i ::
      0 <= i < |s| && key(s[i]) == k && forall j :: 0 <= j < |s| && key(s[j]) == k ==> j == i
  {
    var i :| 0 <= i < |s| && key(s[i]) == k;
    forall j | 0 <= j < |s| && key(s[j]) == k
      ensures j == i
    {
      UniqueIndex(s, key, i, j);
    }
  }
}
