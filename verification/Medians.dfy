/**
  The median the trend judge takes (xtask/src/perf.rs, `median`), over real
  numbers: the values are sorted in place and the middle is read off.
 */
module Medians {

  predicate Ascending(s: seq<real>) { forall i, j | 0 <= i < j < |s| :: s[i] <= s[j] }

  /** `x` put into `s` behind everything that is not larger. */
  function Insert(s: seq<real>, x: real): (r: seq<real>)
    ensures |r| == |s| + 1
  {
    if s == [] || s[|s| - 1] <= x then s + [x] else Insert(s[..|s| - 1], x) + [s[|s| - 1]]
  }

  function Sort(s: seq<real>): (r: seq<real>)
    ensures |r| == |s|
  {
    if s == [] then [] else Insert(Sort(s[..|s| - 1]), s[|s| - 1])
  }

  function Median(s: seq<real>): real
    requires s != []
  {
    var sorted, n := Sort(s), |s|;
    if n % 2 == 1 then sorted[n / 2] else (sorted[n / 2 - 1] + sorted[n / 2]) / 2.0
  }

  // ---- Sorting sorts ----

  lemma {:induction false} InsertAscending(s: seq<real>, x: real)
    requires Ascending(s)
    ensures Ascending(Insert(s, x))
    ensures forall y | y in Insert(s, x) :: y == x || y in s
  {
    if s != [] && s[|s| - 1] > x {
      var front := Insert(s[..|s| - 1], x);
      InsertAscending(s[..|s| - 1], x);
      assert forall i | 0 <= i < |front| :: front[i] in front;
    }
  }

  lemma {:induction false} InsertAdds(s: seq<real>, x: real)
    ensures multiset(Insert(s, x)) == multiset(s) + multiset{x}
  {
    if s != [] && s[|s| - 1] > x {
      InsertAdds(s[..|s| - 1], x);
      assert s == s[..|s| - 1] + [s[|s| - 1]];
    }
  }

  lemma {:induction false} SortPermutes(s: seq<real>)
    ensures multiset(Sort(s)) == multiset(s)
  {
    if s != [] {
      SortPermutes(s[..|s| - 1]);
      InsertAdds(Sort(s[..|s| - 1]), s[|s| - 1]);
      assert s == s[..|s| - 1] + [s[|s| - 1]];
    }
  }

  lemma {:induction false} SortAscending(s: seq<real>)
    ensures Ascending(Sort(s))
  {
    if s != [] {
      SortAscending(s[..|s| - 1]);
      InsertAscending(Sort(s[..|s| - 1]), s[|s| - 1]);
    }
  }

  /** Two ascending sequences of the same values are the same sequence. */
  lemma {:induction false} AscendingUnique(s: seq<real>, t: seq<real>)
    requires Ascending(s) && Ascending(t) && multiset(s) == multiset(t) && |s| == |t|
    ensures s == t
  {
    if s != [] {
      hide Ascending;
      var n := |s| - 1;
      SameLast(s, t);
      SameFront(s, t);
      FrontAscending(s);
      FrontAscending(t);
      AscendingUnique(s[..n], t[..n]);
      SameEnds(s, t);
    }
  }

  lemma SameLast(s: seq<real>, t: seq<real>)
    requires Ascending(s) && Ascending(t) && multiset(s) == multiset(t) && |s| == |t| > 0
    ensures s[|s| - 1] == t[|t| - 1]
  {
    var x, y := s[|s| - 1], t[|t| - 1];
    assert x in multiset(t) && y in multiset(s);
    assert x in t && y in s;
  }

  lemma Front(s: seq<real>)
    requires s != []
    ensures multiset(s[..|s| - 1]) == multiset(s) - multiset{s[|s| - 1]}
  {
    assert s == s[..|s| - 1] + [s[|s| - 1]];
  }

  lemma SameFront(s: seq<real>, t: seq<real>)
    requires multiset(s) == multiset(t) && |s| == |t| > 0 && s[|s| - 1] == t[|t| - 1]
    ensures multiset(s[..|s| - 1]) == multiset(t[..|t| - 1])
  {
    Front(s);
    Front(t);
  }

  lemma SameEnds(s: seq<real>, t: seq<real>)
    requires |s| == |t| > 0 && s[..|s| - 1] == t[..|t| - 1] && s[|s| - 1] == t[|t| - 1]
    ensures s == t
  {
    assert s == s[..|s| - 1] + [s[|s| - 1]];
    assert t == t[..|t| - 1] + [t[|t| - 1]];
  }

  lemma FrontAscending(s: seq<real>)
    requires s != [] && Ascending(s)
    ensures Ascending(s[..|s| - 1])
  {
  }

  /** The order of the values does not matter. */
  lemma MedianOfAnyOrder(s: seq<real>, t: seq<real>)
    requires s != [] && t != [] && multiset(s) == multiset(t)
    ensures Median(s) == Median(t)
  {
    hide Sort, Ascending;
    assert |s| == |multiset(s)| == |multiset(t)| == |t|;
    SortAscending(s);
    SortAscending(t);
    SortPermutes(s);
    SortPermutes(t);
    AscendingUnique(Sort(s), Sort(t));
  }

  /** The median is the middle of the values in order, or halfway between the two middle ones. */
  lemma MedianIsMiddle(s: seq<real>, t: seq<real>)
    requires s != [] && Ascending(t) && multiset(t) == multiset(s)
    ensures |t| == |s|
    ensures if |s| % 2 == 1 then Median(s) == t[|s| / 2] else Median(s) + Median(s) == t[|s| / 2 - 1] + t[|s| / 2]
  {
    hide Sort, Ascending;
    assert |s| == |multiset(s)| == |multiset(t)| == |t|;
    SortAscending(s);
    SortPermutes(s);
    AscendingUnique(Sort(s), t);
  }

  // ---- The median is a majority vote ----

  function Count(s: seq<real>, vote: real -> bool): (c: nat)
    ensures c <= |s|
  {
    if s == [] then 0
    else Count(s[..|s| - 1], vote) + if vote(s[|s| - 1]) then 1 else 0
  }

  lemma {:induction false} CountAppend(s: seq<real>, t: seq<real>, vote: real -> bool)
    ensures Count(s + t, vote) == Count(s, vote) + Count(t, vote)
  {
    if t == [] {
      assert s + t == s;
    } else {
      assert (s + t)[..|s + t| - 1] == s + t[..|t| - 1];
      CountAppend(s, t[..|t| - 1], vote);
    }
  }

  lemma {:induction false} InsertCount(s: seq<real>, x: real, vote: real -> bool)
    ensures Count(Insert(s, x), vote) == Count(s, vote) + if vote(x) then 1 else 0
  {
    if s == [] || s[|s| - 1] <= x {
      assert (s + [x])[..|s|] == s;
    } else {
      var front, last := s[..|s| - 1], s[|s| - 1];
      InsertCount(front, x, vote);
      assert (Insert(front, x) + [last])[..|s|] == Insert(front, x);
    }
  }

  lemma {:induction false} SortCount(s: seq<real>, vote: real -> bool)
    ensures Count(Sort(s), vote) == Count(s, vote)
  {
    if s != [] {
      SortCount(s[..|s| - 1], vote);
      InsertCount(Sort(s[..|s| - 1]), s[|s| - 1], vote);
    }
  }

  lemma {:induction false} CountAll(s: seq<real>, vote: real -> bool, yes: bool)
    requires forall i | 0 <= i < |s| :: vote(s[i]) == yes
    ensures Count(s, vote) == if yes then |s| else 0
  {
    if s != [] {
      CountAll(s[..|s| - 1], vote, yes);
    }
  }

  ghost predicate Rising(vote: real -> bool) { forall x, y | x <= y && vote(x) :: vote(y) }

  /**
    Of an odd number of values, the median passes a rising test exactly when
    more than half of the values do.
   */
  lemma MajorityRules(s: seq<real>, vote: real -> bool)
    requires |s| % 2 == 1 && Rising(vote)
    ensures vote(Median(s)) <==> 2 * Count(s, vote) > |s|
  {
    hide Sort, Count, Ascending, Rising;
    SortAscending(s);
    SortCount(s, vote);
    MiddleDecides(Sort(s), |s| / 2, vote);
  }

  lemma MiddleDecides(s: seq<real>, k: nat, vote: real -> bool)
    requires Ascending(s) && |s| == 2 * k + 1 && Rising(vote)
    ensures if vote(s[k]) then Count(s, vote) > k else Count(s, vote) <= k
  {
    hide Count;
    if vote(s[k]) {
      CountAll(s[k..], vote, true);
      CountAppend(s[..k], s[k..], vote);
      assert s == s[..k] + s[k..];
    } else {
      CountAll(s[..k + 1], vote, false);
      CountAppend(s[..k + 1], s[k + 1..], vote);
      assert s == s[..k + 1] + s[k + 1..];
    }
  }

  lemma {:induction false} VotersCounted(s: seq<real>, vote: real -> bool, voters: set<nat>)
    requires forall i | i in voters :: i < |s| && vote(s[i])
    ensures |voters| <= Count(s, vote)
  {
    if s == [] {
      assert forall i :: i !in voters;
    } else {
      VotersCounted(s[..|s| - 1], vote, voters - {|s| - 1});
    }
  }

  /**
    Any majority of the values straddles the median: with seven values, it lies
    between the least and the greatest of any four of them.
   */
  lemma MajorityStraddles(s: seq<real>, some: set<nat>)
    requires |s| % 2 == 1 && 2 * |some| > |s| && forall i | i in some :: i < |s|
    ensures exists i | i in some :: s[i] <= Median(s)
    ensures exists i | i in some :: Median(s) <= s[i]
  {
    var m := Median(s);
    if forall i | i in some :: m < s[i] {
      MajorityRules(s, x => m < x);
      VotersCounted(s, x => m < x, some);
      assert false;
    }
    if forall i | i in some :: s[i] < m {
      MajorityRules(s, x => m <= x);
      VotersCounted(s, x => x < m, some);
      Opposed(s, x => m <= x, x => x < m);
      assert false;
    }
  }

  lemma {:induction false} Opposed(s: seq<real>, vote: real -> bool, against: real -> bool)
    requires forall x :: vote(x) <==> !against(x)
    ensures Count(s, vote) + Count(s, against) == |s|
  {
    if s != [] {
      Opposed(s[..|s| - 1], vote, against);
    }
  }

  // ---- In place ----

  lemma {:induction false} InsertBelow(s: seq<real>, x: real, j: nat)
    requires j <= |s| && forall i | j <= i < |s| :: s[i] > x
    ensures Insert(s, x) == Insert(s[..j], x) + s[j..]
  {
    if j < |s| {
      var front := s[..|s| - 1];
      InsertBelow(front, x, j);
      assert front[..j] == s[..j] && front[j..] + [s[|s| - 1]] == s[j..];
    } else {
      assert s[..j] == s && s[j..] == [];
    }
  }

  /** `s` with `x` put in at `j`, and then `rest`. */
  function With(s: seq<real>, x: real, j: nat, rest: seq<real>): seq<real>
    requires j <= |s|
  {
    s[..j] + [x] + s[j..] + rest
  }

  lemma WithAt(s: seq<real>, x: real, j: nat, rest: seq<real>)
    requires j <= |s|
    ensures |With(s, x, j, rest)| == |s| + 1 + |rest| && With(s, x, j, rest)[j] == x
    ensures j > 0 ==> With(s, x, j, rest)[j - 1] == s[j - 1]
  {
  }

  /** Exchanging `x` with the value before it puts it in one place earlier. */
  lemma Exchanged(s: seq<real>, x: real, j: nat, rest: seq<real>)
    requires 0 < j <= |s| && |With(s, x, j, rest)| > j
    ensures With(s, x, j, rest)[j - 1 := x][j := s[j - 1]] == With(s, x, j - 1, rest)
  {
  }

  lemma InPlace(s: seq<real>, x: real, j: nat, rest: seq<real>)
    requires j <= |s| && (j > 0 ==> s[j - 1] <= x) && forall i | j <= i < |s| :: s[i] > x
    ensures With(s, x, j, rest) == Insert(s, x) + rest
  {
    InsertBelow(s, x, j);
  }

  /** Lets `a[n]` sink to its place among the values before it. */
  method InsertInPlace(a: array<real>, n: nat)
    requires n < a.Length
    modifies a
    ensures a[..] == Insert(old(a[..n]), old(a[n])) + old(a[n + 1..])
  {
    hide Insert, With;
    ghost var s, x, rest := a[..n], a[n], a[n + 1..];
    var j := n;
    assert a[..] == With(s, x, n, rest) by { StartsWith(a[..], n); }
    while j > 0 && a[j - 1] > a[j]
      invariant j <= n && a[..] == With(s, x, j, rest)
      invariant forall i | j <= i < n :: s[i] > x
    {
      WithAt(s, x, j, rest);
      ghost var before := a[..];
      assert a[j - 1] == before[j - 1] && a[j] == before[j];
      a[j - 1], a[j] := a[j], a[j - 1];
      assert a[..] == before[j - 1 := x][j := s[j - 1]];
      Exchanged(s, x, j, rest);
      j := j - 1;
    }
    WithAt(s, x, j, rest);
    assert j > 0 ==> a[j - 1] == a[..][j - 1];
    assert a[j] == a[..][j];
    InPlace(s, x, j, rest);
  }

  lemma StartsWith(s: seq<real>, n: nat)
    requires n < |s|
    ensures s == With(s[..n], s[n], n, s[n + 1..])
  {
  }

  lemma SortNext(s: seq<real>, n: nat)
    requires n < |s|
    ensures Sort(s[..n + 1]) == Insert(Sort(s[..n]), s[n])
  {
    hide Insert;
    assert s[..n + 1][..n] == s[..n];
  }

  method SortInPlace(a: array<real>)
    modifies a
    ensures a[..] == Sort(old(a[..]))
  {
    hide Sort, Insert;
    ghost var s := a[..];
    var n := 0;
    assert Sort(s[..0]) == [];
    while n < a.Length
      invariant n <= a.Length == |s|
      invariant a[..] == Sort(s[..n]) + s[n..]
    {
      assert a[..n] == Sort(s[..n]) && a[n] == s[n] && a[n + 1..] == s[n + 1..] by { Parts(a[..], Sort(s[..n]), s, n); }
      InsertInPlace(a, n);
      SortNext(s, n);
      n := n + 1;
    }
    assert s[..n] == s && s[n..] == [];
  }

  lemma Parts(all: seq<real>, front: seq<real>, s: seq<real>, n: nat)
    requires n < |s| && |front| == n && all == front + s[n..]
    ensures all[..n] == front && all[n] == s[n] && all[n + 1..] == s[n + 1..]
  {
  }

  method MedianInPlace(values: array<real>) returns (m: real)
    requires values.Length > 0
    modifies values
    ensures m == Median(old(values[..]))
  {
    SortInPlace(values);
    var n := values.Length;
    assert forall i | 0 <= i < n :: values[i] == values[..][i];
    if n % 2 == 1 {
      m := values[n / 2];
    } else {
      m := (values[n / 2 - 1] + values[n / 2]) / 2.0;
    }
  }
}
