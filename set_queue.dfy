/** The deduplicating work queue `SetQueue`: a `queue.Queue` whose storage is an
    ordered set, so that an item already waiting is never queued twice. Only the
    storage hooks are modelled (`_init`, `_put`, `_get`) together with the two
    predicate searches; the blocking, the mutex and `maxsize` waiting of
    `queue.Queue` are not. The queue's items are a duplicate-free sequence in
    insertion order. */
module SetQueues {
  import opened Common

  /** No element occurs twice. */
  ghost predicate Distinct<T>(s: seq<T>)
  {
    forall i, j :: 0 <= i < j < |s| ==> s[i] != s[j]
  }

  /** The elements of `s` that do not satisfy `fn`, in their original order. */
  function Drop<T>(s: seq<T>, fn: T -> bool): (r: seq<T>)
    ensures |r| <= |s|
  {
    if s == [] then []
    else if fn(s[0]) then Drop(s[1..], fn)
    else [s[0]] + Drop(s[1..], fn)
  }

  /** `s` with `x` taken out. */
  function Without<T(==)>(s: seq<T>, x: T): seq<T>
  {
    Drop(s, y => y == x)
  }

  /** What survives `Drop` is exactly what was there and does not match. */
  lemma {:induction false} DropMembers<T>(s: seq<T>, fn: T -> bool, x: T)
    ensures x in Drop(s, fn) <==> x in s && !fn(x)
  {
    if s != [] {
      DropMembers(s[1..], fn, x);
      assert s == [s[0]] + s[1..];
    }
  }

  /** A predicate that matches nothing drops nothing. */
  lemma {:induction false} DropNoMatch<T>(s: seq<T>, fn: T -> bool)
    requires forall i :: 0 <= i < |s| ==> !fn(s[i])
    ensures Drop(s, fn) == s
  {
    if s != [] {
      assert !fn(s[0]);
      DropNoMatch(s[1..], fn);
    }
  }

  lemma {:induction false} DropAppend<T>(a: seq<T>, b: seq<T>, fn: T -> bool)
    ensures Drop(a + b, fn) == Drop(a, fn) + Drop(b, fn)
  {
    if a == [] {
      assert a + b == b;
    } else {
      assert (a + b)[0] == a[0];
      assert (a + b)[1..] == a[1..] + b;
      DropAppend(a[1..], b, fn);
    }
  }

  /** The tail of a duplicate-free sequence is duplicate-free and does not
      hold its head. */
  lemma DistinctTail<T>(s: seq<T>)
    requires Distinct(s) && s != []
    ensures Distinct(s[1..]) && s[0] !in s[1..]
  {
    forall i, j | 0 <= i < j < |s[1..]| ensures s[1..][i] != s[1..][j] {
      assert s[1..][i] == s[i + 1] && s[1..][j] == s[j + 1];
    }
    forall k | 0 <= k < |s[1..]| ensures s[1..][k] != s[0] {
      assert s[1..][k] == s[k + 1];
    }
  }

  /** Putting a new element in front of a duplicate-free sequence keeps it
      duplicate-free. */
  lemma DistinctCons<T>(x: T, t: seq<T>)
    requires Distinct(t) && x !in t
    ensures Distinct([x] + t)
  {
    var r := [x] + t;
    forall i, j | 0 <= i < j < |r| ensures r[i] != r[j] {
      assert r[j] == t[j - 1];
      if i > 0 {
        assert r[i] == t[i - 1];
      }
    }
  }

  /** Dropping elements keeps a duplicate-free sequence duplicate-free. */
  lemma {:induction false} DropDistinct<T>(s: seq<T>, fn: T -> bool)
    requires Distinct(s)
    ensures Distinct(Drop(s, fn))
  {
    if s != [] {
      DistinctTail(s);
      DropDistinct(s[1..], fn);
      if !fn(s[0]) {
        DropMembers(s[1..], fn, s[0]);
        DistinctCons(s[0], Drop(s[1..], fn));
      }
    }
  }

  /** A kept element `s[i]` sits in the result right after the kept elements of `s[..i]`. */
  lemma DropAt<T>(s: seq<T>, fn: T -> bool, i: nat)
    requires i < |s| && !fn(s[i])
    ensures |Drop(s[..i], fn)| < |Drop(s, fn)|
    ensures Drop(s, fn)[|Drop(s[..i], fn)|] == s[i]
  {
    assert s == s[..i] + s[i..];
    DropAppend(s[..i], s[i..], fn);
    assert Drop(s[i..], fn) == [s[i]] + Drop(s[i + 1..], fn) by {
      assert s[i..][0] == s[i] && s[i..][1..] == s[i + 1..];
    }
  }

  /** Dropping keeps the relative order of the elements that survive. */
  lemma DropKeepsOrder<T>(s: seq<T>, fn: T -> bool, i: nat, j: nat)
    requires i < j < |s| && !fn(s[i]) && !fn(s[j])
    ensures |Drop(s[..i], fn)| < |Drop(s[..j], fn)| < |Drop(s, fn)|
    ensures Drop(s, fn)[|Drop(s[..i], fn)|] == s[i]
    ensures Drop(s, fn)[|Drop(s[..j], fn)|] == s[j]
  {
    DropAt(s, fn, i);
    DropAt(s, fn, j);
    assert s[..j][..i] == s[..i];
    DropAt(s[..j], fn, i);
  }

  /** Taking out the element at position `i` of a duplicate-free sequence. */
  lemma {:induction false} WithoutAt<T>(s: seq<T>, i: nat)
    requires Distinct(s) && i < |s|
    ensures Without(s, s[i]) == s[..i] + s[i + 1..]
  {
    var x := s[i];
    var fn := (y: T) => y == x;
    var pre, post := s[..i], s[i + 1..];
    forall k | 0 <= k < |pre| ensures !fn(pre[k]) {
      assert pre[k] == s[k];
    }
    forall k | 0 <= k < |post| ensures !fn(post[k]) {
      assert post[k] == s[i + 1 + k];
    }
    DropNoMatch(pre, fn);
    DropNoMatch(post, fn);
    assert Drop([x], fn) == [];
    assert s == (pre + [x]) + post;
    DropAppend(pre + [x], post, fn);
    DropAppend(pre, [x], fn);
  }

  /** `Without` takes out exactly one occurrence of a present element. */
  lemma WithoutRemovesOne<T>(s: seq<T>, x: T)
    requires Distinct(s) && x in s
    ensures |Without(s, x)| == |s| - 1
    ensures Distinct(Without(s, x))
    ensures forall y :: y in Without(s, x) <==> y in s && y != x
  {
    var i :| 0 <= i < |s| && s[i] == x;
    WithoutAt(s, i);
    DropDistinct(s, y => y == x);
    forall y ensures y in Without(s, x) <==> y in s && y != x {
      DropMembers(s, z => z == x, y);
    }
  }

  class SetQueue<T(==)> {
    var maxsize: int
    var items: seq<T>

    ghost predicate Valid()
      reads this
    {
      Distinct(items)
    }

    /** `_init`: record `maxsize` and start with an empty ordered set. */
    constructor (maxsize: int)
      ensures Valid()
      ensures this.maxsize == maxsize && items == []
    {
      this.maxsize := maxsize;
      items := [];
    }

    /** `_put`: adding an item that is already queued changes nothing; any
        other item joins at the end. */
    method Put(item: T)
      requires Valid()
      modifies this`items
      ensures Valid()
      ensures item in items
      ensures items == if item in old(items) then old(items) else old(items) + [item]
    {
      if item !in items {
        assert Distinct(items + [item]) by {
          var s := items + [item];
          forall i, j | 0 <= i < j < |s| ensures s[i] != s[j] {
            if j == |items| {
              assert s[i] == items[i];
            }
          }
        }
        items := items + [item];
      }
    }

    /** `_get`: the ordered set's `pop` removes and returns some present item;
        which one is left open. The others stay in their order. */
    method Get() returns (item: T)
      requires Valid() && items != []
      modifies this`items
      ensures Valid()
      ensures item in old(items)
      ensures items == Without(old(items), item)
      ensures |items| == |old(items)| - 1
    {
      var i :| 0 <= i < |items|;
      item := items[i];
      WithoutAt(items, i);
      WithoutRemovesOne(items, item);
      items := items[..i] + items[i + 1..];
    }

    /** `find`: the first queued item, in queue order, that satisfies `fn`. */
    method Find(fn: T -> bool) returns (r: Option<T>)
      ensures r.None? <==> forall i :: 0 <= i < |items| ==> !fn(items[i])
      ensures r.Some? ==> exists i :: 0 <= i < |items| && items[i] == r.value && fn(r.value) &&
                                      forall j :: 0 <= j < i ==> !fn(items[j])
    {
      var i := 0;
      while i < |items|
        invariant 0 <= i <= |items|
        invariant forall j :: 0 <= j < i ==> !fn(items[j])
      {
        if fn(items[i]) {
          return Some(items[i]);
        }
        i := i + 1;
      }
      return None;
    }

    /** `find_and_remove`: walk a snapshot of the queue and take every item
        that satisfies `fn` out of the queue. */
    method FindAndRemove(fn: T -> bool)
      requires Valid()
      modifies this`items
      ensures Valid()
      ensures items == Drop(old(items), fn)
    {
      var snapshot := items;
      var i := 0;
      while i < |snapshot|
        invariant 0 <= i <= |snapshot|
        invariant items == Drop(snapshot[..i], fn) + snapshot[i..]
        invariant Distinct(items)
      {
        RemoveStep(snapshot, fn, i, items);
        var item := snapshot[i];
        if fn(item) {
          items := Without(items, item);
        }
        i := i + 1;
      }
      assert snapshot[..i] == snapshot;
    }
  }

  /** One step of `find_and_remove`: the item at position `i` of the snapshot
      is the first unvisited item of the live queue, and removing it when it
      matches moves the loop invariant on by one. */
  lemma RemoveStep<T>(snapshot: seq<T>, fn: T -> bool, i: nat, items: seq<T>)
    requires i < |snapshot| && Distinct(items)
    requires items == Drop(snapshot[..i], fn) + snapshot[i..]
    ensures fn(snapshot[i]) ==> Without(items, snapshot[i]) == Drop(snapshot[..i + 1], fn) + snapshot[i + 1..]
    ensures fn(snapshot[i]) ==> Distinct(Without(items, snapshot[i]))
    ensures !fn(snapshot[i]) ==> items == Drop(snapshot[..i + 1], fn) + snapshot[i + 1..]
  {
    var item := snapshot[i];
    assert snapshot[..i + 1] == snapshot[..i] + [item];
    DropAppend(snapshot[..i], [item], fn);
    assert snapshot[i..] == [item] + snapshot[i + 1..];
    if fn(item) {
      var k := |Drop(snapshot[..i], fn)|;
      assert items[k] == item;
      WithoutAt(items, k);
      WithoutRemovesOne(items, item);
      assert items[..k] == Drop(snapshot[..i], fn);
      assert items[k + 1..] == snapshot[i + 1..];
    } else {
      assert Drop([item], fn) == [item];
    }
  }
}
