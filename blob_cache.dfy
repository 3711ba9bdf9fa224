/** The desktop worker's cache of decoded blobs: at most `capacity` entries,
    evicting the least recently used one when a new entry would exceed it.
    Reading an entry makes it the most recently used. */
module BlobCache {
  import opened Common
  import opened Sorting

  /** What is cached per blob: the binary verdict and the decoded text. */
  datatype CachedRead = CachedRead(binary: bool, text: Option<string>)

  /** `order` without `key`. */
  function Without(order: seq<string>, key: string): (r: seq<string>)
    ensures Elems(r) == Elems(order) - {key}
    ensures |r| <= |order|
    ensures key in order ==> |r| < |order|
    ensures Distinct(order) ==> Distinct(r)
  {
    if order == [] then []
    else
      var rest := Without(order[..|order| - 1], key);
      assert Elems(order) == Elems(order[..|order| - 1]) + {order[|order| - 1]};
      assert order == order[..|order| - 1] + [order[|order| - 1]];
      if order[|order| - 1] == key then rest
      else
        var x := order[|order| - 1];
        assert Elems(rest + [x]) == Elems(rest) + {x};
        assert Distinct(order) ==> Distinct(rest + [x]) by {
          if Distinct(order) {
            assert x !in Elems(order[..|order| - 1]);
            assert x !in Elems(rest);
          }
        }
        rest + [x]
  }

  /** `order` with `key` moved (or added) to the most recent end. */
  function Touch(order: seq<string>, key: string): (r: seq<string>)
    ensures Elems(r) == Elems(order) + {key}
    ensures 0 < |r| <= |order| + 1 && r[|r| - 1] == key
    ensures Distinct(order) ==> Distinct(r)
    ensures Distinct(order) ==> |r| == |Elems(order) + {key}|
  {
    var r := Without(order, key) + [key];
    assert Elems(r) == Elems(Without(order, key)) + {key};
    assert Distinct(order) ==> Distinct(r) && |r| == |Elems(r)| by {
      if Distinct(order) {
        DistinctCard(r);
      }
    }
    r
  }

  lemma {:induction false} DistinctCard(s: seq<string>)
    requires Distinct(s)
    ensures |Elems(s)| == |s|
  {
    if s != [] {
      var init := s[..|s| - 1];
      assert Distinct(init);
      DistinctCard(init);
      assert Elems(s) == Elems(init) + {s[|s| - 1]};
      assert s[|s| - 1] !in Elems(init);
    }
  }

  /** The cache invariant: the recency order lists each stored key once
      and there are never more than `capacity` of them. */
  ghost predicate Fits(order: seq<string>, entries: map<string, CachedRead>, capacity: nat) {
    capacity > 0 && Distinct(order) && Elems(order) == entries.Keys && |order| <= capacity
  }

  /** Storing an entry, and evicting the oldest key on overflow, keeps the
      invariant and never evicts the stored key. */
  lemma SetFits(order: seq<string>, entries: map<string, CachedRead>, capacity: nat, key: string, value: CachedRead)
    requires Fits(order, entries, capacity)
    ensures var touched := Touch(order, key);
      if |touched| > capacity then
        Fits(touched[1..], entries[key := value] - {touched[0]}, capacity) && touched[0] != key
      else
        Fits(touched, entries[key := value], capacity)
  {
    var touched := Touch(order, key);
    if |touched| > capacity {
      SetEvicts(order, entries, capacity, key, value, touched);
    } else {
      assert entries[key := value].Keys == entries.Keys + {key};
    }
  }

  lemma SetEvicts(order: seq<string>, entries: map<string, CachedRead>, capacity: nat, key: string,
                  value: CachedRead, touched: seq<string>)
    requires Fits(order, entries, capacity)
    requires touched == Touch(order, key) && |touched| > capacity
    ensures Fits(touched[1..], entries[key := value] - {touched[0]}, capacity) && touched[0] != key
  {
    DistinctCard(order);
    assert |touched| == capacity + 1;
    DropOldest(touched);
    var e := entries[key := value] - {touched[0]};
    assert e.Keys == entries.Keys + {key} - {touched[0]};
  }

  class Cache {
    /** Keys from least to most recently used. */
    var order: seq<string>
    var entries: map<string, CachedRead>
    const capacity: nat

    ghost predicate Valid()
      reads this
    {
      Fits(order, entries, capacity)
    }

    constructor(capacity: nat)
      requires capacity > 0
      ensures Valid() && this.capacity == capacity && order == [] && entries == map[]
    {
      this.capacity := capacity;
      order := [];
      entries := map[];
    }

    /** `cache.get(key)`: the entry, which becomes the most recently used. */
    method Get(key: string) returns (v: Option<CachedRead>)
      requires Valid()
      modifies this
      ensures Valid()
      ensures v == if key in old(entries) then Some(old(entries)[key]) else None
      ensures entries == old(entries)
      ensures order == if key in old(entries) then Touch(old(order), key) else old(order)
    {
      if key in entries {
        v := Some(entries[key]);
        order := Touch(order, key);
        DistinctCard(order);
        DistinctCard(old(order));
        assert Elems(order) == Elems(old(order));
      } else {
        v := None;
      }
    }

    /** `cache.set(key, value)`: stores the entry as the most recently used
        and, when that overflows the capacity, drops the least recently used. */
    method Set(key: string, value: CachedRead)
      requires Valid()
      modifies this
      ensures Valid()
      ensures key in entries && entries[key] == value
      ensures var touched := Touch(old(order), key);
        if |touched| > capacity then
          order == touched[1..] && entries == old(entries)[key := value] - {touched[0]}
        else
          order == touched && entries == old(entries)[key := value]
    {
      var touched := Touch(order, key);
      SetFits(order, entries, capacity, key, value);
      if |touched| > capacity {
        order := touched[1..];
        entries := entries[key := value] - {touched[0]};
      } else {
        order := touched;
        entries := entries[key := value];
      }
    }
  }

  lemma DropOldest(s: seq<string>)
    requires Distinct(s) && |s| > 1
    ensures Distinct(s[1..]) && Elems(s[1..]) == Elems(s) - {s[0]}
    ensures s[|s| - 1] in Elems(s[1..])
  {
    assert s == [s[0]] + s[1..];
    assert s[0] !in Elems(s[1..]);
  }

  /** An entry that is read keeps being present: only `Set` evicts, and it
      evicts the least recently used key, never the one just stored. */
  lemma EvictsOldest(order: seq<string>, key: string, capacity: nat)
    requires Distinct(order) && |order| <= capacity && capacity > 0
    requires |Touch(order, key)| > capacity
    ensures key !in order
    ensures Touch(order, key)[0] == order[0]
  {
    assert Without(order, key) == order by {
      WithoutAbsent(order, key);
    }
  }

  lemma {:induction false} WithoutAbsent(order: seq<string>, key: string)
    requires key !in order
    ensures Without(order, key) == order
  {
    if order != [] {
      WithoutAbsent(order[..|order| - 1], key);
      assert order == order[..|order| - 1] + [order[|order| - 1]];
    }
  }
}
