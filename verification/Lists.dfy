/** Lists of ids: first occurrences, leaving elements out, and how often an element occurs. */
module Lists {

  function Elements(s: seq<int>): set<int> {
    set x | x in s
  }

  // -------------------------------------------------------------------------------------
  // First occurrences

  /** The elements of s that are wanted, each where it occurs first. */
  function Firsts(s: seq<int>, wanted: set<int>): (r: seq<int>)
    ensures forall x :: x in r <==> x in s && x in wanted
    ensures forall i, j :: 0 <= i < j < |r| ==> r[i] != r[j]
  {
    if s == [] then []
    else
      var n := |s| - 1;
      var r := Firsts(s[..n], wanted);
      assert s == s[..n] + [s[n]];
      if s[n] in wanted && s[n] !in r then r + [s[n]] else r
  }

  function FirstAt(s: seq<int>, x: int): (r: nat)
    requires x in s
    ensures r < |s| && s[r] == x && x !in s[..r]
  {
    var n := |s| - 1;
    assert s == s[..n] + [s[n]];
    if x in s[..n] then
      var r := FirstAt(s[..n], x);
      assert s[..n][..r] == s[..r];
      r
    else n
  }

  /** First occurrences keep the order of the list they are taken from. */
  lemma {:induction false} FirstsInOrder(s: seq<int>, wanted: set<int>, i: nat, j: nat)
    requires i < j < |Firsts(s, wanted)|
    ensures Firsts(s, wanted)[i] in s && Firsts(s, wanted)[j] in s
    ensures FirstAt(s, Firsts(s, wanted)[i]) < FirstAt(s, Firsts(s, wanted)[j])
  {
    var n := |s| - 1;
    var before, r := Firsts(s[..n], wanted), Firsts(s, wanted);
    assert s == s[..n] + [s[n]];
    assert r[i] == before[i];
    assert before[i] in s[..n];
    if j < |before| {
      FirstsInOrder(s[..n], wanted, i, j);
      assert before[j] in s[..n];
    }
  }

  lemma NoFirsts(wanted: set<int>)
    ensures Firsts([], wanted) == []
  {
  }

  lemma FirstsStep(s: seq<int>, x: int, wanted: set<int>)
    ensures Firsts(s + [x], wanted)
         == if x in wanted && x !in Firsts(s, wanted) then Firsts(s, wanted) + [x] else Firsts(s, wanted)
  {
    assert (s + [x])[..|s|] == s;
  }

  lemma FirstsExtendOne(a: seq<int>, b: seq<int>, x: int, wanted: set<int>)
    requires Firsts(a, wanted) == Firsts(b, wanted)
    ensures Firsts(a + [x], wanted) == Firsts(b + [x], wanted)
  {
    hide Firsts;
    FirstsStep(a, x, wanted);
    FirstsStep(b, x, wanted);
  }

  lemma Regroup(a: seq<int>, t: seq<int>)
    requires t != []
    ensures a + t == (a + t[..|t| - 1]) + [t[|t| - 1]]
  {
  }

  /** What a longer list adds depends on the first occurrences before it only. */
  lemma {:induction false} FirstsExtend(a: seq<int>, b: seq<int>, t: seq<int>, wanted: set<int>)
    requires Firsts(a, wanted) == Firsts(b, wanted)
    ensures Firsts(a + t, wanted) == Firsts(b + t, wanted)
  {
    hide Firsts;
    if t == [] {
      assert a + t == a && b + t == b;
    } else {
      var n := |t| - 1;
      FirstsExtend(a, b, t[..n], wanted);
      FirstsExtendOne(a + t[..n], b + t[..n], t[n], wanted);
      Regroup(a, t);
      Regroup(b, t);
    }
  }

  lemma {:induction false} FirstsRepeat(a: seq<int>, t: seq<int>, wanted: set<int>)
    requires forall i :: 0 <= i < |t| ==> t[i] in a
    ensures Firsts(a + t, wanted) == Firsts(a, wanted)
  {
    if t == [] {
      assert a + t == a;
    } else {
      var n := |t| - 1;
      FirstsRepeat(a, t[..n], wanted);
      FirstsStep(a + t[..n], t[n], wanted);
      assert (a + t[..n]) + [t[n]] == a + t;
      assert t[n] in a;
    }
  }

  /** A list without repetitions, all of it wanted, is its own first occurrences. */
  lemma {:induction false} FirstsOfDistinct(s: seq<int>, wanted: set<int>)
    requires forall i, j :: 0 <= i < j < |s| ==> s[i] != s[j]
    requires forall i :: 0 <= i < |s| ==> s[i] in wanted
    ensures Firsts(s, wanted) == s
  {
    if s != [] {
      var n := |s| - 1;
      FirstsOfDistinct(s[..n], wanted);
      assert s == s[..n] + [s[n]];
    }
  }

  /** The list without later repetitions. */
  function Unique(s: seq<int>): (r: seq<int>)
    ensures forall x :: x in r <==> x in s
    ensures forall i, j :: 0 <= i < j < |r| ==> r[i] != r[j]
  {
    Firsts(s, Elements(s))
  }

  // -------------------------------------------------------------------------------------
  // Leaving out, and counting

  /** A list without the members of a set. */
  function Without(s: seq<int>, out: set<int>): (r: seq<int>)
    ensures forall x :: x in r <==> x in s && x !in out
  {
    if s == [] then []
    else
      var n := |s| - 1;
      assert s == s[..n] + [s[n]];
      if s[n] in out then Without(s[..n], out) else Without(s[..n], out) + [s[n]]
  }

  lemma CountLast(s: seq<int>, y: int, x: int)
    ensures multiset(s + [y])[x] == multiset(s)[x] + if x == y then 1 else 0
  {
  }

  lemma WithoutLast(s: seq<int>, y: int, out: set<int>)
    ensures Without(s + [y], out) == if y in out then Without(s, out) else Without(s, out) + [y]
  {
    assert (s + [y])[..|s|] == s;
  }

  lemma WithoutCountsLast(s: seq<int>, y: int, out: set<int>, x: int)
    requires multiset(Without(s, out))[x] == if x in out then 0 else multiset(s)[x]
    ensures multiset(Without(s + [y], out))[x] == if x in out then 0 else multiset(s + [y])[x]
  {
    hide Without;
    WithoutLast(s, y, out);
    CountLast(s, y, x);
    CountLast(Without(s, out), y, x);
  }

  lemma {:induction false} WithoutCounts(s: seq<int>, out: set<int>, x: int)
    ensures multiset(Without(s, out))[x] == if x in out then 0 else multiset(s)[x]
  {
    if s != [] {
      hide Without;
      var n := |s| - 1;
      WithoutCounts(s[..n], out, x);
      WithoutCountsLast(s[..n], s[n], out, x);
      assert s == s[..n] + [s[n]];
    }
  }

  lemma {:induction false} DistinctCounts(s: seq<int>, x: int)
    requires forall i, j :: 0 <= i < j < |s| ==> s[i] != s[j]
    ensures multiset(s)[x] == if x in s then 1 else 0
  {
    if s != [] {
      var n := |s| - 1;
      DistinctCounts(s[..n], x);
      assert s == s[..n] + [s[n]];
    }
  }

  lemma TwiceCounts(s: seq<int>, i: nat, j: nat)
    requires i < j < |s| && s[i] == s[j]
    ensures multiset(s)[s[i]] >= 2
  {
    assert s == s[..j] + s[j..];
    assert s[..j][i] == s[i] && s[j..][0] == s[j];
    assert s[i] in multiset(s[..j]) && s[j] in multiset(s[j..]);
  }
}
