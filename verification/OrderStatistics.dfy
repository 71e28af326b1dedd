/** Descending sort of score lists and counts above a cut. */
module OrderStatistics {
  import opened Scores

  ghost predicate Descending(s: seq<Score>) {
    forall i, j :: 0 <= i < j < |s| ==> s[i] >= s[j]
  }

  function Insert(x: Score, s: seq<Score>): seq<Score> {
    if s == [] || x >= s[0] then [x] + s else [s[0]] + Insert(x, s[1..])
  }

  function SortDesc(s: seq<Score>): seq<Score> {
    if s == [] then [] else Insert(s[0], SortDesc(s[1..]))
  }

  /** How many scores are at or above `c`. */
  function CountGe(s: seq<Score>, c: int): nat {
    if s == [] then 0 else (if s[0] >= c then 1 else 0) + CountGe(s[1..], c)
  }

  lemma {:induction false} InsertAdds(x: Score, s: seq<Score>)
    ensures multiset(Insert(x, s)) == multiset(s) + multiset{x}
  {
    if s != [] && x < s[0] {
      InsertAdds(x, s[1..]);
      assert s == [s[0]] + s[1..];
      assert multiset(s) == multiset{s[0]} + multiset(s[1..]);
      assert multiset(Insert(x, s)) == multiset{s[0]} + multiset(Insert(x, s[1..]));
    } else {
      assert multiset([x] + s) == multiset([x]) + multiset(s);
    }
  }

  lemma {:induction false} InsertKeepsOrder(x: Score, s: seq<Score>)
    requires Descending(s)
    ensures Descending(Insert(x, s))
    ensures |Insert(x, s)| == |s| + 1
    ensures Insert(x, s)[0] == if s == [] || x >= s[0] then x else s[0]
  {
    if s != [] && x < s[0] {
      InsertKeepsOrder(x, s[1..]);
    }
  }

  lemma {:induction false} SortIsSorted(s: seq<Score>)
    ensures Descending(SortDesc(s))
    ensures multiset(SortDesc(s)) == multiset(s)
    ensures |SortDesc(s)| == |s|
  {
    hide Insert;
    if s != [] {
      SortIsSorted(s[1..]);
      InsertKeepsOrder(s[0], SortDesc(s[1..]));
      InsertAdds(s[0], SortDesc(s[1..]));
      assert s == [s[0]] + s[1..];
    }
  }

  lemma {:induction false} CountConcat(a: seq<Score>, b: seq<Score>, c: int)
    ensures CountGe(a + b, c) == CountGe(a, c) + CountGe(b, c)
  {
    if a == [] {
      assert a + b == b;
    } else {
      assert (a + b)[1..] == a[1..] + b;
      CountConcat(a[1..], b, c);
    }
  }

  lemma RemoveOne(b: seq<Score>, x: Score, c: int) returns (rest: seq<Score>)
    requires x in b
    ensures multiset(b) == multiset(rest) + multiset{x}
    ensures CountGe(b, c) == CountGe(rest, c) + if x >= c then 1 else 0
  {
    var i :| 0 <= i < |b| && b[i] == x;
    rest := b[..i] + b[i + 1..];
    var tail := [x] + b[i + 1..];
    assert b == b[..i] + tail;
    CountConcat(b[..i], b[i + 1..], c);
    CountConcat(b[..i], tail, c);
    assert tail[1..] == b[i + 1..];
  }

  lemma {:induction false} CountPermutation(a: seq<Score>, b: seq<Score>, c: int)
    requires multiset(a) == multiset(b)
    ensures CountGe(a, c) == CountGe(b, c)
    decreases |a|
  {
    if a == [] {
      assert |multiset(b)| == 0;
    } else {
      assert a == [a[0]] + a[1..];
      assert a[0] in multiset(b);
      var rest := RemoveOne(b, a[0], c);
      assert multiset(a[1..]) == multiset(a) - multiset{a[0]};
      assert multiset(rest) == multiset(b) - multiset{a[0]};
      CountPermutation(a[1..], rest, c);
    }
  }

  lemma {:induction false} CountAntitone(s: seq<Score>, c: int, d: int)
    requires c <= d
    ensures CountGe(s, d) <= CountGe(s, c) <= |s|
  {
    if s != [] {
      CountAntitone(s[1..], c, d);
    }
  }

  lemma {:induction false} CountBelow(v: seq<Score>, c: int)
    requires forall i :: 0 <= i < |v| ==> v[i] < c
    ensures CountGe(v, c) == 0
  {
    if v != [] {
      CountBelow(v[1..], c);
    }
  }

  /** In a descending list the k-th entry decides whether more than k scores reach the cut. */
  lemma {:induction false} CountAt(v: seq<Score>, c: int, k: nat)
    requires Descending(v) && k < |v|
    ensures CountGe(v, c) > k <==> v[k] >= c
  {
    if v[0] < c {
      CountBelow(v, c);
    } else if k > 0 {
      CountAt(v[1..], c, k - 1);
    }
  }

  /** Sorting erases the input order. */
  lemma SortPermutation(a: seq<Score>, b: seq<Score>)
    requires multiset(a) == multiset(b)
    ensures SortDesc(a) == SortDesc(b)
  {
    SortIsSorted(a);
    SortIsSorted(b);
    var v, w := SortDesc(a), SortDesc(b);
    assert |v| == |multiset(v)| == |multiset(w)| == |w|;
    forall k | 0 <= k < |v| ensures v[k] == w[k] {
      CountPermutation(v, w, v[k]);
      CountPermutation(v, w, w[k]);
      CountAt(v, v[k], k);
      CountAt(w, v[k], k);
      CountAt(v, w[k], k);
      CountAt(w, w[k], k);
    }
  }
}
