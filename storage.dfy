/** The browser's local storage as the list sees it: one slot under the key
    'items' that is either absent or holds the serialized list of item names.
    Serialization is an identity round trip, so the slot holds the sequence itself. */
module Storage {

  datatype Slot = Absent | Stored(items: seq<string>)

  /** `getItemsFromStorage`: the stored list, or the empty list when the key is absent. */
  function Load(slot: Slot): (r: seq<string>)
    ensures slot == Absent ==> r == []
    ensures slot.Stored? ==> r == slot.items
  {
    match slot
    case Absent => []
    case Stored(items) => items
  }

  /** Writing back what was just read leaves every later read as it was, even
      when the key was absent; a deleted key and a stored empty list read alike. */
  lemma WriteBackIsInvisible(slot: Slot)
    ensures Load(Stored(Load(slot))) == Load(slot)
    ensures Load(Absent) == Load(Stored([]))
  {
  }

  /** `items.filter(i => i !== item)`: every entry equal to `item` dropped, the
      others kept; no entry equal to `item` is left. */
  function Without(items: seq<string>, item: string): (r: seq<string>)
    ensures item !in r
    ensures |r| <= |items|
  {
    if items == [] then []
    else (if items[0] == item then [] else [items[0]]) + Without(items[1..], item)
  }

  /** An entry survives the removal exactly when it was stored and differs from `item`. */
  lemma {:induction false} WithoutMembers(items: seq<string>, item: string, x: string)
    ensures x in Without(items, item) <==> x in items && x != item
    decreases |items|
  {
    if items != [] {
      WithoutMembers(items[1..], item, x);
      assert items == [items[0]] + items[1..];
    }
  }

  /** Counted with multiplicities, the result of the removal is the input with
      the count of `item` set to zero, so it is shorter by exactly that count. */
  lemma {:induction false} WithoutCounts(items: seq<string>, item: string)
    ensures multiset(Without(items, item)) == multiset(items)[item := 0]
    ensures |Without(items, item)| == |items| - multiset(items)[item]
    decreases |items|
  {
    if items != [] {
      WithoutCounts(items[1..], item);
      assert items == [items[0]] + items[1..];
      assert multiset(items) == multiset([items[0]]) + multiset(items[1..]);
    }
  }

  /** `a` is `b` with some entries dropped, the rest in their original order. */
  ghost predicate IsSubsequence(a: seq<string>, b: seq<string>)
    decreases |b|
  {
    if a == [] then true
    else if b == [] then false
    else (a[0] == b[0] && IsSubsequence(a[1..], b[1..])) || IsSubsequence(a, b[1..])
  }

  /** The entries that survive the removal keep their relative order. */
  lemma {:induction false} WithoutKeepsOrder(items: seq<string>, item: string)
    ensures IsSubsequence(Without(items, item), items)
    decreases |items|
  {
    if items != [] {
      WithoutKeepsOrder(items[1..], item);
      var rest := Without(items[1..], item);
      if items[0] == item {
        assert Without(items, item) == rest;
        SubsequenceOfTail(rest, items);
      } else {
        assert Without(items, item) == [items[0]] + rest;
        assert ([items[0]] + rest)[1..] == rest;
      }
    }
  }

  /** A subsequence of the tail of `b` is a subsequence of `b`. */
  lemma {:induction false} SubsequenceOfTail(a: seq<string>, b: seq<string>)
    requires b != [] && IsSubsequence(a, b[1..])
    ensures IsSubsequence(a, b)
  {
  }

  /** Removing a name that is not stored leaves the list as it was. */
  lemma {:induction false} WithoutAbsent(items: seq<string>, item: string)
    requires item !in items
    ensures Without(items, item) == items
    decreases |items|
  {
    if items != [] {
      WithoutAbsent(items[1..], item);
      assert items == [items[0]] + items[1..];
    }
  }

  /** No name is stored twice. */
  ghost predicate NoDuplicates(items: seq<string>)
  {
    forall i, j :: 0 <= i < j < |items| ==> items[i] != items[j]
  }

  /** When no name is stored twice, removing the name at position `k` removes
      exactly that one entry. */
  lemma {:induction false} WithoutUnique(items: seq<string>, k: nat)
    requires k < |items| && NoDuplicates(items)
    ensures Without(items, items[k]) == items[..k] + items[k + 1..]
    decreases k
  {
    var x, tail := items[k], items[1..];
    assert NoDuplicates(tail) by {
      forall i, j | 0 <= i < j < |tail| ensures tail[i] != tail[j] {
        assert tail[i] == items[i + 1] && tail[j] == items[j + 1];
      }
    }
    if k == 0 {
      assert x !in tail by {
        forall j | 0 <= j < |tail| ensures tail[j] != x {
          assert tail[j] == items[j + 1];
        }
      }
      WithoutAbsent(tail, x);
    } else {
      assert items[0] != x;
      assert tail[k - 1] == x;
      WithoutUnique(tail, k - 1);
      assert Without(items, x) == [items[0]] + (tail[..k - 1] + tail[k..]);
      assert items[..k] == [items[0]] + tail[..k - 1];
      assert items[k + 1..] == tail[k..];
    }
  }
}
