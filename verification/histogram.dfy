/**
  Counting occurrences of cells: the analyzer's `Counter` followed by `sorted`,
  and the groups of `GROUP BY ... COUNT(*)`. A histogram is a list of buckets
  with strictly ascending keys and positive counts.
 */
module Histogram {
  import opened Wrappers
  import opened SqlText

  datatype Bucket = Bucket(key: Text, count: nat)

  /** Occurrences of `k` in `xs`. */
  function Count(xs: seq<Text>, k: Text): nat
  {
    if |xs| == 0 then 0
    else Count(xs[..|xs| - 1], k) + (if xs[|xs| - 1] == k then 1 else 0)
  }

  predicate Ascending(h: seq<Bucket>)
  {
    forall i, j :: 0 <= i < j < |h| ==> TextLess(h[i].key, h[j].key)
  }

  predicate Positive(h: seq<Bucket>)
  {
    forall i :: 0 <= i < |h| ==> h[i].count >= 1
  }

  function Keys(h: seq<Bucket>): (keys: seq<Text>)
    ensures |keys| == |h| && forall i :: 0 <= i < |h| ==> keys[i] == h[i].key
  {
    seq(|h|, i requires 0 <= i < |h| => h[i].key)
  }

  function Counts(h: seq<Bucket>): (counts: seq<nat>)
    ensures |counts| == |h| && forall i :: 0 <= i < |h| ==> counts[i] == h[i].count
  {
    seq(|h|, i requires 0 <= i < |h| => h[i].count)
  }

  function Sum(xs: seq<nat>): nat
  {
    if |xs| == 0 then 0 else xs[0] + Sum(xs[1..])
  }

  /** The count stored under `k`, or zero. */
  function Lookup(h: seq<Bucket>, k: Text): nat
  {
    if |h| == 0 then 0
    else if h[0].key == k then h[0].count
    else Lookup(h[1..], k)
  }

  /** One more occurrence of `x`: increment its bucket or insert a new one in place. */
  function Bump(h: seq<Bucket>, x: Text): seq<Bucket>
  {
    if |h| == 0 then [Bucket(x, 1)]
    else if h[0].key == x then [Bucket(x, h[0].count + 1)] + h[1..]
    else if TextLess(x, h[0].key) then [Bucket(x, 1)] + h
    else [h[0]] + Bump(h[1..], x)
  }

  lemma {:induction false} SumCons(h: seq<Bucket>)
    requires |h| > 0
    ensures Sum(Counts(h)) == h[0].count + Sum(Counts(h[1..]))
  {
    assert Counts(h)[1..] == Counts(h[1..]);
  }

  lemma KeysConcat(a: seq<Bucket>, b: seq<Bucket>)
    ensures Keys(a + b) == Keys(a) + Keys(b)
  {
  }

  lemma {:induction false} BumpKeys(h: seq<Bucket>, x: Text, k: Text)
    ensures k in Keys(Bump(h, x)) <==> k in Keys(h) || k == x
    decreases |h|
  {
    if |h| == 0 {
      assert Keys(Bump(h, x)) == [x];
    } else {
      var b := Bump(h, x);
      assert h == [h[0]] + h[1..];
      KeysConcat([h[0]], h[1..]);
      assert Keys([h[0]]) == [h[0].key];
      if h[0].key == x {
        KeysConcat([Bucket(x, h[0].count + 1)], h[1..]);
        assert Keys([Bucket(x, h[0].count + 1)]) == [x];
        assert Keys(b) == [x] + Keys(h[1..]);
      } else if TextLess(x, h[0].key) {
        KeysConcat([Bucket(x, 1)], h);
        assert Keys([Bucket(x, 1)]) == [x];
        assert Keys(b) == [x] + Keys(h);
      } else {
        BumpKeys(h[1..], x, k);
        KeysConcat([h[0]], Bump(h[1..], x));
        assert Keys(b) == [h[0].key] + Keys(Bump(h[1..], x));
      }
    }
  }

  lemma BumpKeysAll(h: seq<Bucket>, x: Text)
    ensures forall k :: k in Keys(Bump(h, x)) <==> k in Keys(h) || k == x
  {
    forall k {
      BumpKeys(h, x, k);
    }
  }

  /** Every key of an ascending histogram is at or above its first key. */
  lemma KeysFromFirst(h: seq<Bucket>, k: Text)
    requires Ascending(h) && |h| > 0 && k in Keys(h)
    ensures k == h[0].key || TextLess(h[0].key, k)
  {
    var m :| 0 <= m < |h| && Keys(h)[m] == k;
  }

  lemma {:induction false} BumpAscending(h: seq<Bucket>, x: Text)
    requires Ascending(h)
    ensures Ascending(Bump(h, x))
    decreases |h|
  {
    if |h| > 0 && h[0].key != x {
      var b := Bump(h, x);
      if TextLess(x, h[0].key) {
        assert b[1..] == h;
        forall i, j | 0 <= i < j < |b|
          ensures TextLess(b[i].key, b[j].key)
        {
          if i == 0 && j > 1 {
            TextLessTransitive(x, h[0].key, h[j - 1].key);
          }
        }
      } else {
        TextLessTotal(x, h[0].key);
        BumpAscending(h[1..], x);
        var rest := Bump(h[1..], x);
        assert b == [h[0]] + rest;
        forall j | 0 <= j < |rest|
          ensures TextLess(h[0].key, rest[j].key)
        {
          assert rest[j].key in Keys(rest);
          BumpKeys(h[1..], x, rest[j].key);
          if rest[j].key != x {
            var m :| 0 <= m < |h[1..]| && Keys(h[1..])[m] == rest[j].key;
            assert h[m + 1].key == rest[j].key;
          }
        }
      }
    }
  }

  lemma {:induction false} BumpPositive(h: seq<Bucket>, x: Text)
    requires Positive(h)
    ensures Positive(Bump(h, x))
    decreases |h|
  {
    if |h| > 0 && h[0].key != x && !TextLess(x, h[0].key) {
      BumpPositive(h[1..], x);
    }
  }

  lemma {:induction false} BumpSum(h: seq<Bucket>, x: Text)
    ensures Sum(Counts(Bump(h, x))) == Sum(Counts(h)) + 1
    decreases |h|
  {
    var b := Bump(h, x);
    SumCons(b);
    if |h| > 0 {
      SumCons(h);
      if h[0].key == x {
        assert b[1..] == h[1..];
      } else if TextLess(x, h[0].key) {
        assert b[1..] == h;
      } else {
        BumpSum(h[1..], x);
        assert b[1..] == Bump(h[1..], x);
      }
    }
  }

  lemma {:induction false} BumpLookup(h: seq<Bucket>, x: Text, k: Text)
    requires Ascending(h)
    ensures Lookup(Bump(h, x), k) == Lookup(h, k) + (if k == x then 1 else 0)
    decreases |h|
  {
    if |h| == 0 {
    } else if h[0].key == x {
      if k == x && |h| > 1 {
        LookupBelow(h[1..], x);
      }
    } else if TextLess(x, h[0].key) {
      if k == x {
        LookupBelow(h, x);
      }
    } else {
      BumpLookup(h[1..], x, k);
    }
  }

  /** In an ascending histogram a key below the first one is absent. */
  lemma {:induction false} LookupBelow(h: seq<Bucket>, x: Text)
    requires Ascending(h) && |h| > 0 && TextLess(x, h[0].key)
    ensures Lookup(h, x) == 0
    decreases |h|
  {
    if |h| > 1 {
      TextLessTransitive(x, h[0].key, h[1].key);
      LookupBelow(h[1..], x);
    }
    if h[0].key == x {
      TextLessIrreflexive(x);
    }
  }

  /** In an ascending histogram each bucket is what `Lookup` finds under its key. */
  lemma {:induction false} LookupAt(h: seq<Bucket>, i: nat)
    requires Ascending(h) && i < |h|
    ensures Lookup(h, h[i].key) == h[i].count
    decreases i
  {
    if i > 0 {
      if h[0].key == h[i].key {
        TextLessIrreflexive(h[0].key);
      }
      LookupAt(h[1..], i - 1);
    }
  }

  /** No key occurs twice. */
  predicate Distinct(ks: seq<Text>)
  {
    forall i, j :: 0 <= i < j < |ks| ==> ks[i] != ks[j]
  }

  /** Distinct values drawn from `s` are at most as many as `s` has members. */
  lemma {:induction false} DistinctBound(ks: seq<Text>, s: set<Text>)
    requires Distinct(ks) && forall i :: 0 <= i < |ks| ==> ks[i] in s
    ensures |ks| <= |s|
    decreases |ks|
  {
    if |ks| > 0 {
      var rest := ks[1..];
      forall i | 0 <= i < |rest| ensures rest[i] in s - {ks[0]} {
        assert rest[i] == ks[i + 1];
      }
      DistinctBound(rest, s - {ks[0]});
    }
  }

  /** An ascending histogram has no repeated key. */
  lemma AscendingDistinct(h: seq<Bucket>)
    requires Ascending(h)
    ensures Distinct(Keys(h))
  {
    forall i, j | 0 <= i < j < |h|
      ensures Keys(h)[i] != Keys(h)[j]
    {
      if h[i].key == h[j].key {
        TextLessIrreflexive(h[i].key);
      }
    }
  }

  /** `Counter(xs)` with its keys sorted ascending. */
  function Tally(xs: seq<Text>): (h: seq<Bucket>)
    ensures Ascending(h) && Positive(h)
    ensures forall k :: Lookup(h, k) == Count(xs, k)
    ensures Sum(Counts(h)) == |xs|
    ensures forall k :: k in Keys(h) <==> k in xs
  {
    if |xs| == 0 then []
    else
      var prefix := xs[..|xs| - 1];
      var x := xs[|xs| - 1];
      var h := Bump(Tally(prefix), x);
      BumpAscending(Tally(prefix), x);
      BumpPositive(Tally(prefix), x);
      BumpSum(Tally(prefix), x);
      BumpKeysAll(Tally(prefix), x);
      assert forall k :: Lookup(h, k) == Count(xs, k) by {
        forall k ensures Lookup(h, k) == Count(xs, k) {
          BumpLookup(Tally(prefix), x, k);
        }
      }
      assert xs == prefix + [x];
      h
  }

  /** Each bucket of the tally holds exactly the number of occurrences of its key. */
  lemma TallyCounts(xs: seq<Text>)
    ensures forall i :: 0 <= i < |Tally(xs)| ==> Tally(xs)[i].count == Count(xs, Tally(xs)[i].key)
  {
    var h := Tally(xs);
    forall i | 0 <= i < |h| ensures h[i].count == Count(xs, h[i].key) {
      LookupAt(h, i);
    }
  }
}
