/** The writer's merge order: emissions sorted by (icount, rank, tie). */
module Merge {
  import opened Bytes

  datatype Key = Key(icount: u64, rank: nat, tie: nat)
  {
    predicate Leq(other: Key) {
      || icount < other.icount
      || (icount == other.icount && rank < other.rank)
      || (icount == other.icount && rank == other.rank && tie <= other.tie)
    }
  }

  /** A value with its merge key. */
  datatype Entry<T> = Entry(key: Key, value: T)

  ghost predicate Ordered<T>(es: seq<Entry<T>>) {
    forall i, j :: 0 <= i < j < |es| ==> es[i].key.Leq(es[j].key)
  }

  function Insert<T>(x: Entry<T>, ys: seq<Entry<T>>): (zs: seq<Entry<T>>)
    ensures |zs| == |ys| + 1
    decreases |ys|
  {
    if ys == [] then [x]
    else if x.key.Leq(ys[0].key) then [x] + ys
    else [ys[0]] + Insert(x, ys[1..])
  }

  /** Stable sort by key. */
  function Sort<T>(es: seq<Entry<T>>): (zs: seq<Entry<T>>)
    ensures |zs| == |es|
    decreases |es|
  {
    if es == [] then [] else Insert(es[0], Sort(es[1..]))
  }

  function Select<T>(p: Entry<T> -> bool, es: seq<Entry<T>>): (zs: seq<Entry<T>>)
    decreases |es|
  {
    if es == [] then []
    else if p(es[0]) then [es[0]] + Select(p, es[1..])
    else Select(p, es[1..])
  }

  lemma {:induction false} SelectMembers<T>(p: Entry<T> -> bool, es: seq<Entry<T>>)
    ensures forall z :: z in Select(p, es) ==> p(z) && z in es
    decreases |es|
  {
    if es != [] {
      SelectMembers(p, es[1..]);
    }
  }

  lemma SelectCons<T>(p: Entry<T> -> bool, x: Entry<T>, ys: seq<Entry<T>>)
    ensures Select(p, [x] + ys) == if p(x) then [x] + Select(p, ys) else Select(p, ys)
  {
    assert ([x] + ys)[1..] == ys;
  }

  lemma {:induction false} InsertKeeps<T>(x: Entry<T>, ys: seq<Entry<T>>)
    requires Ordered(ys)
    ensures Ordered(Insert(x, ys)) && multiset(Insert(x, ys)) == multiset([x]) + multiset(ys)
    decreases |ys|
  {
    if ys == [] {
    } else if x.key.Leq(ys[0].key) {
    } else {
      var rest := Insert(x, ys[1..]);
      InsertKeeps(x, ys[1..]);
      assert ys == [ys[0]] + ys[1..];
      hide Insert;
      forall j | 0 <= j < |rest|
        ensures ys[0].key.Leq(rest[j].key)
      {
        assert rest[j] in multiset(rest);
        assert rest[j] == x || rest[j] in ys[1..];
      }
    }
  }

  lemma {:induction false} SortKeeps<T>(es: seq<Entry<T>>)
    ensures Ordered(Sort(es)) && multiset(Sort(es)) == multiset(es)
    decreases |es|
  {
    if es != [] {
      SortKeeps(es[1..]);
      InsertKeeps(es[0], Sort(es[1..]));
      assert es == [es[0]] + es[1..];
    }
  }

  lemma {:induction false} SelectConcat<T>(p: Entry<T> -> bool, a: seq<Entry<T>>, b: seq<Entry<T>>)
    ensures Select(p, a + b) == Select(p, a) + Select(p, b)
    decreases |a|
  {
    if a == [] {
      assert a + b == b;
    } else {
      assert (a + b)[1..] == a[1..] + b;
      SelectConcat(p, a[1..], b);
    }
  }

  lemma {:induction false} SelectAll<T>(p: Entry<T> -> bool, es: seq<Entry<T>>)
    requires forall e :: e in es ==> p(e)
    ensures Select(p, es) == es
    decreases |es|
  {
    if es != [] {
      SelectAll(p, es[1..]);
    }
  }

  lemma {:induction false} SelectNone<T>(p: Entry<T> -> bool, es: seq<Entry<T>>)
    requires forall e :: e in es ==> !p(e)
    ensures Select(p, es) == []
    decreases |es|
  {
    if es != [] {
      SelectNone(p, es[1..]);
    }
  }

  lemma {:induction false} SelectOrdered<T>(p: Entry<T> -> bool, es: seq<Entry<T>>)
    requires Ordered(es)
    ensures Ordered(Select(p, es))
    decreases |es|
  {
    if es != [] {
      SelectOrdered(p, es[1..]);
      SelectMembers(p, es[1..]);
      var zs := Select(p, es[1..]);
      forall j | 0 <= j < |zs|
        ensures es[0].key.Leq(zs[j].key)
      {
        assert zs[j] in es[1..];
      }
    }
  }

  lemma InsertFront<T>(x: Entry<T>, ys: seq<Entry<T>>)
    requires forall y :: y in ys ==> x.key.Leq(y.key)
    ensures Insert(x, ys) == [x] + ys
  {
  }

  lemma {:induction false} SelectInsert<T>(p: Entry<T> -> bool, x: Entry<T>, ys: seq<Entry<T>>)
    requires Ordered(ys)
    ensures Select(p, Insert(x, ys)) == if p(x) then Insert(x, Select(p, ys)) else Select(p, ys)
    decreases |ys|
  {
    if ys == [] {
      SelectCons(p, x, []);
    } else if x.key.Leq(ys[0].key) {
      SelectCons(p, x, ys);
      SelectMembers(p, ys);
      InsertFront(x, Select(p, ys));
    } else {
      SelectInsert(p, x, ys[1..]);
      SelectCons(p, ys[0], Insert(x, ys[1..]));
      InsertPast(x, ys[0], Select(p, ys[1..]));
    }
  }

  lemma InsertPast<T>(x: Entry<T>, y: Entry<T>, ys: seq<Entry<T>>)
    requires !x.key.Leq(y.key)
    ensures Insert(x, [y] + ys) == [y] + Insert(x, ys)
  {
    assert ([y] + ys)[1..] == ys;
  }

  lemma SortCons<T>(x: Entry<T>, ys: seq<Entry<T>>)
    ensures Sort([x] + ys) == Insert(x, Sort(ys))
  {
    assert ([x] + ys)[1..] == ys;
  }

  /** Sorting and selecting commute. */
  lemma {:induction false} SelectSort<T>(p: Entry<T> -> bool, es: seq<Entry<T>>)
    ensures Select(p, Sort(es)) == Sort(Select(p, es))
    decreases |es|
  {
    if es != [] {
      SelectSort(p, es[1..]);
      SortKeeps(es[1..]);
      SelectInsert(p, es[0], Sort(es[1..]));
      SortCons(es[0], Select(p, es[1..]));
    }
  }

  lemma {:induction false} SortOrdered<T>(es: seq<Entry<T>>)
    requires Ordered(es)
    ensures Sort(es) == es
    decreases |es|
  {
    if es != [] {
      SortOrdered(es[1..]);
    }
  }

  lemma {:induction false} InsertBeforeLast<T>(x: Entry<T>, ys: seq<Entry<T>>, last: Entry<T>)
    requires x.key.Leq(last.key)
    ensures Insert(x, ys + [last]) == Insert(x, ys) + [last]
    decreases |ys|
  {
    if ys == [] {
      assert ys + [last] == [last];
    } else if !x.key.Leq(ys[0].key) {
      InsertBeforeLast(x, ys[1..], last);
      assert (ys + [last])[1..] == ys[1..] + [last];
    }
  }

  /** A greatest entry stays last. */
  lemma {:induction false} SortLast<T>(es: seq<Entry<T>>, last: Entry<T>)
    requires forall e :: e in es ==> e.key.Leq(last.key)
    ensures Sort(es + [last]) == Sort(es) + [last]
    decreases |es|
  {
    if es == [] {
      assert es + [last] == [last];
    } else {
      SortLast(es[1..], last);
      InsertBeforeLast(es[0], Sort(es[1..]), last);
      assert (es + [last])[1..] == es[1..] + [last];
    }
  }
}
