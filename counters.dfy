/** Option, the stand-in for pandas' missing values and for failed matches. */
module Wrappers {
  datatype Option<+T> = None | Some(value: T)
}

/** Python's `collections.Counter` over strings, with the insertion order of
    its keys (a `dict` remembers the order in which keys first arrived), and
    the order-preserving duplicate removal that goes with it. */
module Counters {
  import opened Text

  /** `keys` lists the keys in first-insertion order; `counts` holds their tallies. */
  datatype Counter = Counter(keys: seq<string>, counts: map<string, nat>)

  const Empty: Counter := Counter([], map[])

  /** The representation invariant: each key once, exactly the mapped keys,
      and every stored tally positive (a `Counter` built by `+= 1` never holds 0). */
  ghost predicate Valid(c: Counter) {
    && NoDup(c.keys)
    && (forall k :: k in c.keys <==> k in c.counts)
    && (forall k :: k in c.counts ==> c.counts[k] >= 1)
  }

  /** `c[k]`: a missing key counts 0. */
  function Count(c: Counter, k: string): nat {
    if k in c.counts then c.counts[k] else 0
  }

  /** `c[k] += 1`: a new key goes to the end of the key order. */
  function Bump(c: Counter, k: string): (r: Counter)
    ensures Valid(c) ==> Valid(r)
    ensures Count(r, k) == Count(c, k) + 1
    ensures forall j :: j != k ==> Count(r, j) == Count(c, j)
    ensures k in c.keys ==> r.keys == c.keys
    ensures k !in c.keys ==> r.keys == c.keys + [k]
  {
    if k in c.keys then Counter(c.keys, c.counts[k := Count(c, k) + 1])
    else Counter(c.keys + [k], c.counts[k := Count(c, k) + 1])
  }

  /** `Counter(xs)`: one `Bump` per element, left to right. */
  function CounterOf(xs: seq<string>): Counter {
    if xs == [] then Empty else Bump(CounterOf(xs[..|xs| - 1]), xs[|xs| - 1])
  }

  /** The distinct elements of `xs` in order of first appearance. */
  function Dedup<T(==)>(xs: seq<T>): seq<T> {
    if xs == [] then []
    else
      var d := Dedup(xs[..|xs| - 1]);
      if xs[|xs| - 1] in d then d else d + [xs[|xs| - 1]]
  }

  /** `Dedup` keeps every element once and nothing else. */
  lemma {:induction false} DedupElements<T>(xs: seq<T>)
    ensures NoDup(Dedup(xs))
    ensures forall x :: x in Dedup(xs) <==> x in xs
  {
    if xs != [] {
      var p := xs[..|xs| - 1];
      DedupElements(p);
      assert xs == p + [xs[|xs| - 1]];
    }
  }

  lemma DedupMember<T>(xs: seq<T>, x: T)
    requires x in Dedup(xs)
    ensures x in xs
  {
    DedupElements(xs);
  }

  /** `Dedup` lists elements by first appearance: wherever `Dedup(xs)[j]`
      occurs in `xs`, every earlier entry `Dedup(xs)[i]` has already occurred. */
  lemma {:induction false} DedupFirstSeen<T>(xs: seq<T>)
    ensures forall i, j, p :: 0 <= i < j < |Dedup(xs)| && 0 <= p < |xs| && xs[p] == Dedup(xs)[j]
                              ==> Dedup(xs)[i] in xs[..p]
  {
    if xs != [] {
      var n := |xs| - 1;
      var pre := xs[..n];
      var d := Dedup(pre);
      DedupFirstSeen(pre);
      DedupElements(pre);
      var r := Dedup(xs);
      forall i, j, p | 0 <= i < j < |r| && 0 <= p < |xs| && xs[p] == r[j]
        ensures r[i] in xs[..p]
      {
        if p < n {
          assert pre[p] == xs[p];
          assert xs[p] in pre;
          assert r[i] == d[i] && r[j] == d[j];
          assert d[i] in pre[..p];
          assert pre[..p] == xs[..p];
        } else {
          assert i < |d| && r[i] == d[i];
          DedupMember(pre, d[i]);
          assert xs[..p] == pre;
        }
      }
    }
  }

  /** The keys of `Counter(xs)` are the distinct elements in first-appearance order. */
  lemma {:induction false} CounterKeys(xs: seq<string>)
    ensures Valid(CounterOf(xs))
    ensures CounterOf(xs).keys == Dedup(xs)
  {
    if xs != [] {
      CounterKeys(xs[..|xs| - 1]);
    }
  }

  /** Each key of `Counter(xs)` counts its occurrences in `xs`. */
  lemma {:induction false} CounterCounts(xs: seq<string>, k: string)
    ensures Count(CounterOf(xs), k) == multiset(xs)[k]
  {
    if xs != [] {
      var p := xs[..|xs| - 1];
      CounterCounts(p, k);
      assert xs == p + [xs[|xs| - 1]];
    }
  }

  /** `c.items()`: the pairs in key order. */
  function Items(c: Counter): (r: seq<(string, nat)>)
    ensures |r| == |c.keys|
    ensures forall i :: 0 <= i < |r| ==> r[i] == (c.keys[i], Count(c, c.keys[i]))
  {
    seq(|c.keys|, i requires 0 <= i < |c.keys| => (c.keys[i], Count(c, c.keys[i])))
  }

  /** The sum of the tallies of the keys `ks`. */
  function SumOver(c: Counter, ks: seq<string>): nat {
    if ks == [] then 0 else SumOver(c, ks[..|ks| - 1]) + Count(c, ks[|ks| - 1])
  }

  /** `sum(c.values())` */
  function Total(c: Counter): nat {
    SumOver(c, c.keys)
  }

  /** Raising one listed key by one raises the sum over a duplicate-free key list by one. */
  lemma {:induction false} SumOverBump(c: Counter, ks: seq<string>, k: string)
    requires NoDup(ks)
    ensures SumOver(Bump(c, k), ks) == SumOver(c, ks) + (if k in ks then 1 else 0)
  {
    if ks != [] {
      var p := ks[..|ks| - 1];
      assert NoDup(p);
      SumOverBump(c, p, k);
      assert ks == p + [ks[|ks| - 1]];
      assert ks[|ks| - 1] == k ==> k !in p;
    }
  }

  /** The tallies of `Counter(xs)` add up to the length of `xs`. */
  lemma {:induction false} CounterTotal(xs: seq<string>)
    ensures Total(CounterOf(xs)) == |xs|
  {
    if xs != [] {
      var p := xs[..|xs| - 1];
      var k := xs[|xs| - 1];
      var c := CounterOf(p);
      CounterTotal(p);
      CounterKeys(p);
      SumOverBump(c, c.keys, k);
      if k !in c.keys {
        assert Bump(c, k).keys == c.keys + [k];
        assert (c.keys + [k])[..|c.keys|] == c.keys;
        assert Count(Bump(c, k), k) == 1;
      }
    }
  }

  /** A duplicate-free list has as many elements as its set. */
  lemma {:induction false} NoDupCard<T>(s: seq<T>)
    requires NoDup(s)
    ensures |set x | x in s| == |s|
  {
    if s != [] {
      var p := s[..|s| - 1];
      assert NoDup(p);
      NoDupCard(p);
      assert s == p + [s[|s| - 1]];
      assert (set x | x in s) == (set x | x in p) + {s[|s| - 1]};
    }
  }

  /** `len(Counter(xs))` is the number of distinct elements of `xs`. */
  lemma CounterSize(xs: seq<string>)
    ensures |Items(CounterOf(xs))| == |set x | x in xs|
  {
    CounterKeys(xs);
    DedupElements(xs);
    NoDupCard(Dedup(xs));
    assert (set x | x in Dedup(xs)) == (set x | x in xs);
  }

  /** `sorted(items, key=count, reverse=True)` is stable: an item goes before
      the first item whose count is not larger. */
  function InsertByCount(x: (string, nat), s: seq<(string, nat)>): seq<(string, nat)> {
    if s == [] || s[0].1 <= x.1 then [x] + s
    else [s[0]] + InsertByCount(x, s[1..])
  }

  function SortByCount(s: seq<(string, nat)>): seq<(string, nat)> {
    if s == [] then [] else InsertByCount(s[0], SortByCount(s[1..]))
  }

  /** `Counter.most_common()` */
  function MostCommon(c: Counter): seq<(string, nat)> {
    SortByCount(Items(c))
  }

  predicate CountDescending(s: seq<(string, nat)>) {
    forall i, j :: 0 <= i < j < |s| ==> s[i].1 >= s[j].1
  }

  /** The items with count `v`, in order. */
  function WithCount(s: seq<(string, nat)>, v: nat): seq<(string, nat)> {
    if s == [] then []
    else (if s[0].1 == v then [s[0]] else []) + WithCount(s[1..], v)
  }

  lemma {:induction false} InsertByCountCorrect(x: (string, nat), s: seq<(string, nat)>)
    requires CountDescending(s)
    ensures CountDescending(InsertByCount(x, s))
    ensures multiset(InsertByCount(x, s)) == multiset(s) + multiset{x}
  {
    if s == [] || s[0].1 <= x.1 {
      assert InsertByCount(x, s) == [x] + s;
      forall j | 0 <= j < |s| ensures s[j].1 <= x.1 {
        if j > 0 { assert s[0].1 >= s[j].1; }
      }
      ConsDescending(x, s);
    } else {
      var t := InsertByCount(x, s[1..]);
      assert InsertByCount(x, s) == [s[0]] + t;
      assert s == [s[0]] + s[1..];
      InsertByCountCorrect(x, s[1..]);
      CountsAtMost(s[0].1, t, s[1..], x);
      ConsDescending(s[0], t);
    }
  }

  /** An item with a count no smaller than any in a descending list heads it. */
  lemma ConsDescending(h: (string, nat), t: seq<(string, nat)>)
    requires CountDescending(t) && forall j :: 0 <= j < |t| ==> t[j].1 <= h.1
    ensures CountDescending([h] + t)
  {
    var r := [h] + t;
    forall i, j | 0 <= i < j < |r| ensures r[i].1 >= r[j].1 {
      assert r[j] == t[j - 1];
      if i > 0 { assert r[i] == t[i - 1]; }
    }
  }

  /** A permutation of `s` and `x` has no count above a bound of theirs. */
  lemma CountsAtMost(m: nat, r: seq<(string, nat)>, s: seq<(string, nat)>, x: (string, nat))
    requires multiset(r) == multiset(s) + multiset{x}
    requires x.1 <= m && forall j :: 0 <= j < |s| ==> s[j].1 <= m
    ensures forall j :: 0 <= j < |r| ==> r[j].1 <= m
  {
    forall j | 0 <= j < |r| ensures r[j].1 <= m {
      assert r[j] in multiset(s) + multiset{x};
      if r[j] != x {
        var k :| 0 <= k < |s| && s[k] == r[j];
      }
    }
  }

  lemma {:induction false} InsertByCountStable(x: (string, nat), s: seq<(string, nat)>, v: nat)
    ensures WithCount(InsertByCount(x, s), v) == (if x.1 == v then [x] else []) + WithCount(s, v)
  {
    if s == [] || s[0].1 <= x.1 {
      assert InsertByCount(x, s) == [x] + s;
      assert ([x] + s)[1..] == s;
    } else {
      var t := InsertByCount(x, s[1..]);
      assert InsertByCount(x, s) == [s[0]] + t;
      InsertByCountStable(x, s[1..], v);
      assert ([s[0]] + t)[1..] == t;
      assert WithCount([s[0]] + t, v) == (if s[0].1 == v then [s[0]] else []) + WithCount(t, v);
      assert WithCount(s, v) == (if s[0].1 == v then [s[0]] else []) + WithCount(s[1..], v);
    }
  }

  /** The ranking is sorted by descending count and lists exactly the items. */
  lemma {:induction false} SortByCountCorrect(s: seq<(string, nat)>)
    ensures CountDescending(SortByCount(s))
    ensures multiset(SortByCount(s)) == multiset(s)
  {
    if s != [] {
      SortByCountCorrect(s[1..]);
      InsertByCountCorrect(s[0], SortByCount(s[1..]));
      assert s == [s[0]] + s[1..];
    }
  }

  /** Items of equal count keep their original relative order. */
  lemma {:induction false} SortByCountStable(s: seq<(string, nat)>, v: nat)
    ensures WithCount(SortByCount(s), v) == WithCount(s, v)
  {
    if s != [] {
      SortByCountStable(s[1..], v);
      InsertByCountStable(s[0], SortByCount(s[1..]), v);
    }
  }
}
