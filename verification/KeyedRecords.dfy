/** Lists of records with unique text keys: insertion in key order, and removal by key. */
module KeyedRecords {
  import opened Text
  import opened Counting

  predicate HasKey<T>(key: T -> string, s: seq<T>, id: string) {
    exists i :: 0 <= i < |s| && key(s[i]) == id
  }

  lemma HasKeyMember<T>(key: T -> string, s: seq<T>, id: string)
    ensures HasKey(key, s, id) <==> exists x :: x in s && key(x) == id
  {
    if exists x :: x in s && key(x) == id {
      var x :| x in s && key(x) == id;
      var i :| 0 <= i < |s| && s[i] == x;
      assert HasKey(key, s, id);
    }
  }

  function OtherKeys<T>(key: T -> string, id: string): T -> bool {
    (x: T) => key(x) != id
  }

  lemma KeyedSortedDistinct<T>(key: T -> string, s: seq<T>)
    requires KeyedSorted(key, s)
    ensures KeysDistinct(key, s)
  {
    forall i, j | 0 <= i < j < |s| ensures key(s[i]) != key(s[j]) {
      LessIrreflexive(key(s[i]));
    }
  }

  // A record with a new key, pushed and sorted.
  lemma InsertedKeys<T>(key: T -> string, s: seq<T>, x: T)
    requires KeysDistinct(key, s) && !HasKey(key, s, key(x))
    ensures KeyedSorted(key, SortBy(key, s + [x]))
    ensures multiset(SortBy(key, s + [x])) == multiset(s) + multiset{x}
    ensures |SortBy(key, s + [x])| == |s| + 1
  {
    var all := s + [x];
    forall i, j | 0 <= i < j < |all| ensures key(all[i]) != key(all[j]) {
      assert all[i] == s[i];
      if j < |s| { assert key(s[i]) != key(s[j]); }
    }
    SortBySorted(key, all);
    assert |SortBy(key, all)| == |multiset(SortBy(key, all))| == |multiset(all)|;
  }

  lemma InsertedMembers<T(!new)>(key: T -> string, s: seq<T>, x: T)
    ensures forall y :: y in SortBy(key, s + [x]) <==> y in s || y == x
  {
    forall y ensures y in SortBy(key, s + [x]) <==> y in s || y == x {
      assert y in multiset(SortBy(key, s + [x])) <==> y in multiset(s + [x]);
    }
  }

  // Removing the key that was just inserted leaves the records as they were, up to order.
  lemma RemoveInserted<T(!new)>(key: T -> string, s: seq<T>, x: T)
    requires KeysDistinct(key, s) && !HasKey(key, s, key(x))
    ensures multiset(Filter(OtherKeys(key, key(x)), SortBy(key, s + [x]))) == multiset(s)
  {
    var keep := OtherKeys(key, key(x));
    var inserted := SortBy(key, s + [x]);
    InsertedKeys(key, s, x);
    HasKeyMember(key, s, key(x));
    forall y ensures multiset(Filter(keep, inserted))[y] == multiset(s)[y] {
      FilterMultiset(keep, inserted, y);
    }
  }

  lemma {:induction false} FilterKeyedSorted<T>(key: T -> string, keep: T -> bool, s: seq<T>)
    requires KeyedSorted(key, s)
    ensures KeyedSorted(key, Filter(keep, s))
  {
    if s != [] {
      FilterKeyedSorted(key, keep, s[1..]);
      var rest := Filter(keep, s[1..]);
      forall j | 0 <= j < |rest| ensures Less(key(s[0]), key(rest[j])) {
        assert rest[j] in s[1..];
        var k :| 0 <= k < |s[1..]| && s[1..][k] == rest[j];
        assert s[k + 1] == rest[j];
      }
    }
  }

  lemma {:induction false} RemoveOne<T>(key: T -> string, s: seq<T>, id: string)
    requires KeysDistinct(key, s)
    ensures |Filter(OtherKeys(key, id), s)| == |s| - (if HasKey(key, s, id) then 1 else 0)
  {
    if s != [] {
      var rest := s[1..];
      forall i, j | 0 <= i < j < |rest| ensures key(rest[i]) != key(rest[j]) {
        assert rest[i] == s[i + 1] && rest[j] == s[j + 1];
      }
      RemoveOne(key, rest, id);
      HasKeyMember(key, rest, id);
      HasKeyMember(key, s, id);
      assert s == [s[0]] + rest;
      forall x | x in rest ensures key(x) != key(s[0]) {
        var i :| 0 <= i < |rest| && rest[i] == x;
        assert key(s[0]) != key(s[i + 1]);
      }
    }
  }

  lemma {:induction false} KeepsOthers<T>(key: T -> string, s: seq<T>, id: string)
    requires forall k :: 0 <= k < |s| ==> key(s[k]) != id
    ensures Filter(OtherKeys(key, id), s) == s
  {
    if s != [] {
      KeepsOthers(key, s[1..], id);
      assert s == [s[0]] + s[1..];
    }
  }

  // Removing a key takes out the one record that has it and leaves the others in place.
  lemma {:induction false} RemovesOnly<T>(key: T -> string, s: seq<T>, k: nat)
    requires KeysDistinct(key, s) && k < |s|
    ensures Filter(OtherKeys(key, key(s[k])), s) == s[..k] + s[k + 1..]
  {
    var front, back, id := s[..k], s[k + 1..], key(s[k]);
    forall j | 0 <= j < |front| ensures key(front[j]) != id {
      assert key(s[j]) != key(s[k]);
    }
    forall j | 0 <= j < |back| ensures key(back[j]) != id {
      assert key(s[k]) != key(s[k + 1 + j]);
    }
    KeepsOthers(key, front, id);
    KeepsOthers(key, back, id);
    SplitAround(s, k);
    FilterParts(OtherKeys(key, id), front, [s[k]] + back);
    FilterParts(OtherKeys(key, id), [s[k]], back);
    assert Filter(OtherKeys(key, id), [s[k]]) == [];
  }

  lemma {:induction false} FilterParts<T>(p: T -> bool, a: seq<T>, b: seq<T>)
    ensures Filter(p, a + b) == Filter(p, a) + Filter(p, b)
  {
    if a == [] {
      assert a + b == b;
    } else {
      assert (a + b)[0] == a[0] && (a + b)[1..] == a[1..] + b;
      FilterParts(p, a[1..], b);
    }
  }

  // Removal up to order, exactly when the records were in key order.
  lemma RemoveInsertedSorted<T(!new)>(key: T -> string, s: seq<T>, x: T)
    requires KeyedSorted(key, s) && !HasKey(key, s, key(x))
    ensures Filter(OtherKeys(key, key(x)), SortBy(key, s + [x])) == s
  {
    KeyedSortedDistinct(key, s);
    InsertedKeys(key, s, x);
    RemoveInserted(key, s, x);
    FilterKeyedSorted(key, OtherKeys(key, key(x)), SortBy(key, s + [x]));
    KeyedSortedUnique(key, Filter(OtherKeys(key, key(x)), SortBy(key, s + [x])), s);
  }
}
