/** sort_data: the ranking order. NOTA descending, then CE descending, then
    DATA NASC ascending (the older candidate first). A missing score ranks
    below every present one, for either key, and a missing birth date after
    every present one. Rows that tie on all three keys
    keep their relative order: the sort is stable. */
module Ranking {
  import opened Wrappers
  import opened Dates
  import opened Roster

  /** Where `a` stands relative to `b` in the ranking. */
  datatype Order = Ahead | Tie | Behind

  /** One score key, descending, scores that failed coercion last. */
  function CompareScores(x: Score, y: Score): (o: Order)
    ensures o == Tie <==> x == y
  {
    match (x, y)
    case (Some(a), Some(b)) => if a > b then Ahead else if a < b then Behind else Tie
    case (Some(_), None) => Ahead
    case (None, Some(_)) => Behind
    case (None, None) => Tie
  }

  /** Birth dates, ascending: the earlier date (the older candidate) first,
      NaT last. */
  function CompareBirth(a: Birth, b: Birth): (o: Order)
    ensures o == Tie <==> a == b
  {
    match (a, b)
    case (Some(x), Some(y)) => if Earlier(x, y) then Ahead else if Earlier(y, x) then Behind else Tie
    case (Some(_), None) => Ahead
    case (None, Some(_)) => Behind
    case (None, None) => Tie
  }

  /** The three-key lexicographic comparison of sort_values (app.py:29). */
  function Compare(a: Candidate, b: Candidate): Order
  {
    match CompareScores(a.nota, b.nota)
    case Tie =>
      (match CompareScores(a.ce, b.ce)
       case Tie => CompareBirth(a.birth, b.birth)
       case o => o)
    case o => o
  }

  /** `a` may stand before `b` in a ranked view. */
  predicate RanksBefore(a: Candidate, b: Candidate)
  {
    Compare(a, b) != Behind
  }

  /** The part of a row the ranking looks at. */
  datatype RankKey = RankKey(nota: Score, ce: Score, birth: Birth)

  function Key(r: Candidate): RankKey
  {
    RankKey(r.nota, r.ce, r.birth)
  }

  // ---------------------------------------------------------------------
  // The comparison is a total preorder whose ties are exactly equal keys.
  // ---------------------------------------------------------------------

  lemma CompareFlip(a: Candidate, b: Candidate)
    ensures Compare(a, b) == Ahead <==> Compare(b, a) == Behind
    ensures Compare(a, b) == Tie <==> Compare(b, a) == Tie
  {
  }

  lemma CompareTieIsSameKey(a: Candidate, b: Candidate)
    ensures Compare(a, b) == Tie <==> Key(a) == Key(b)
  {
  }

  lemma RanksBeforeTotal(a: Candidate, b: Candidate)
    ensures RanksBefore(a, b) || RanksBefore(b, a)
  {
    CompareFlip(a, b);
  }

  lemma RanksBeforeTransitive(a: Candidate, b: Candidate, c: Candidate)
    requires RanksBefore(a, b) && RanksBefore(b, c)
    ensures RanksBefore(a, c)
  {
  }

  // ---------------------------------------------------------------------
  // The sort.
  // ---------------------------------------------------------------------

  /** Place `r` before the first row it may precede. */
  function Insert(r: Candidate, s: seq<Candidate>): seq<Candidate>
  {
    if s == [] then [r]
    else if RanksBefore(r, s[0]) then [r] + s
    else [s[0]] + Insert(r, s[1..])
  }

  /** sort_data(df) (app.py:27-29): the view in ranking order. */
  function SortView(s: seq<Candidate>): seq<Candidate>
  {
    if s == [] then [] else Insert(s[0], SortView(s[1..]))
  }

  ghost predicate Sorted(s: seq<Candidate>)
  {
    forall i, j :: 0 <= i < j < |s| ==> RanksBefore(s[i], s[j])
  }

  /** The rows of `s` whose ranking key is `k`, in the order of `s`. */
  function WithKey(s: seq<Candidate>, k: RankKey): seq<Candidate>
  {
    if s == [] then []
    else (if Key(s[0]) == k then [s[0]] else []) + WithKey(s[1..], k)
  }

  /** `t` keeps the rows of `s` that tie on all keys in their order in `s`. */
  ghost predicate SameTieOrder(t: seq<Candidate>, s: seq<Candidate>)
  {
    forall k :: WithKey(t, k) == WithKey(s, k)
  }

  lemma {:induction false} InsertPermutes(r: Candidate, s: seq<Candidate>)
    ensures multiset(Insert(r, s)) == multiset(s) + multiset{r}
  {
    if s != [] && !RanksBefore(r, s[0]) {
      InsertPermutes(r, s[1..]);
      assert s == [s[0]] + s[1..];
    }
  }

  lemma SortedCons(x: Candidate, t: seq<Candidate>)
    requires Sorted(t)
    requires forall j :: 0 <= j < |t| ==> RanksBefore(x, t[j])
    ensures Sorted([x] + t)
  {
    var u := [x] + t;
    forall i, j | 0 <= i < j < |u| ensures RanksBefore(u[i], u[j]) {
      assert u[j] == t[j - 1];
      if i > 0 { assert u[i] == t[i - 1]; }
    }
  }

  lemma {:induction false} InsertSorted(r: Candidate, s: seq<Candidate>)
    requires Sorted(s)
    ensures Sorted(Insert(r, s))
  {
    if s == [] {
    } else if RanksBefore(r, s[0]) {
      forall j | 0 <= j < |s| ensures RanksBefore(r, s[j]) {
        if j > 0 { RanksBeforeTransitive(r, s[0], s[j]); }
      }
      SortedCons(r, s);
    } else {
      var tail := s[1..];
      SortedTail(s);
      InsertSorted(r, tail);
      InsertPermutes(r, tail);
      var ins := Insert(r, tail);
      RanksBeforeTotal(r, s[0]);
      forall j | 0 <= j < |ins| ensures RanksBefore(s[0], ins[j]) {
        assert ins[j] in multiset(ins);
        if ins[j] != r {
          assert ins[j] in multiset(tail);
          var m :| 0 <= m < |tail| && tail[m] == ins[j];
          assert s[m + 1] == ins[j];
        }
      }
      SortedCons(s[0], ins);
    }
  }

  /** Inserting a row adds it to its own tie group, ahead of its ties. */
  lemma {:induction false} InsertTieOrder(r: Candidate, s: seq<Candidate>, k: RankKey)
    ensures WithKey(Insert(r, s), k) == (if Key(r) == k then [r] else []) + WithKey(s, k)
  {
    if s == [] {
    } else if RanksBefore(r, s[0]) {
      assert ([r] + s)[1..] == s;
    } else {
      CompareTieIsSameKey(r, s[0]);
      InsertTieOrder(r, s[1..], k);
      assert ([s[0]] + Insert(r, s[1..]))[1..] == Insert(r, s[1..]);
    }
  }

  /** sort_data returns a permutation of its input in ranking order. */
  lemma {:induction false} SortViewSortedPermutation(s: seq<Candidate>)
    ensures Sorted(SortView(s))
    ensures multiset(SortView(s)) == multiset(s)
  {
    if s != [] {
      SortViewSortedPermutation(s[1..]);
      InsertSorted(s[0], SortView(s[1..]));
      InsertPermutes(s[0], SortView(s[1..]));
      assert s == [s[0]] + s[1..];
    }
  }

  /** sort_data is stable: rows that tie on all three keys keep their order. */
  lemma {:induction false} SortViewStable(s: seq<Candidate>)
    ensures SameTieOrder(SortView(s), s)
  {
    if s != [] {
      SortViewStable(s[1..]);
      forall k ensures WithKey(SortView(s), k) == WithKey(s, k) {
        InsertTieOrder(s[0], SortView(s[1..]), k);
      }
    }
  }

  /** Score `x` is at least score `y`, a missing score being the lowest. */
  predicate ScoreAtLeast(x: Score, y: Score)
  {
    y.None? || (x.Some? && x.value >= y.value)
  }

  /** Birth date `x` is no later than `y`, a missing date being the latest. */
  predicate BirthNoLater(x: Birth, y: Birth)
  {
    y.None? || (x.Some? && !Earlier(y.value, x.value))
  }

  /** What "a may stand before b" means key by key. */
  predicate InRankOrder(a: Candidate, b: Candidate)
  {
    && ScoreAtLeast(a.nota, b.nota)
    && (a.nota == b.nota ==> ScoreAtLeast(a.ce, b.ce))
    && (a.nota == b.nota && a.ce == b.ce ==> BirthNoLater(a.birth, b.birth))
  }

  lemma RanksBeforeInRankOrder(a: Candidate, b: Candidate)
    requires RanksBefore(a, b)
    ensures InRankOrder(a, b)
  {
  }

  /** The order the page promises, pair by adjacent pair: NOTA does not
      rise; on equal NOTA, CE does not rise; on equal NOTA and CE the
      birth date does not fall (the older candidate first). */
  lemma RankingOrder(s: seq<Candidate>)
    ensures var v := SortView(s);
      forall i :: 0 <= i < |v| - 1 ==> InRankOrder(v[i], v[i + 1])
  {
    SortViewSortedPermutation(s);
    var v := SortView(s);
    forall i | 0 <= i < |v| - 1 ensures InRankOrder(v[i], v[i + 1]) {
      RanksBeforeInRankOrder(v[i], v[i + 1]);
    }
  }

  /** A row whose NOTA failed coercion comes after every row with a NOTA:
      only rows without NOTA follow it. */
  lemma MissingNotaLast(s: seq<Candidate>)
    ensures var v := SortView(s);
      forall i, j :: 0 <= i < j < |v| && v[i].nota.None? ==> v[j].nota.None?
  {
    SortViewSortedPermutation(s);
  }

  /** Among rows with equal NOTA, a row whose CE failed coercion comes after
      every row with a CE. */
  lemma MissingCeLast(s: seq<Candidate>)
    ensures var v := SortView(s);
      forall i, j :: 0 <= i < j < |v| && v[i].nota == v[j].nota && v[i].ce.None? ==> v[j].ce.None?
  {
    SortViewSortedPermutation(s);
  }

  /** Among rows with equal NOTA and CE, a row whose birth date is NaT comes
      after every row with a date. */
  lemma MissingBirthLast(s: seq<Candidate>)
    ensures var v := SortView(s);
      forall i, j :: 0 <= i < j < |v| && v[i].nota == v[j].nota && v[i].ce == v[j].ce && v[i].birth.None? ==> v[j].birth.None?
  {
    SortViewSortedPermutation(s);
  }

  /** Two rankings of the same rows that are both sorted and both keep the
      order of ties are the same sequence. */
  lemma {:induction false} SortedTieOrderUnique(a: seq<Candidate>, b: seq<Candidate>)
    requires Sorted(a) && Sorted(b) && SameTieOrder(a, b)
    ensures a == b
    decreases |a|
  {
    BothEmptyOrNeither(a, b);
    if a != [] {
      var x, y := a[0], b[0];
      FirstRanksBeforeOthers(a, y);
      FirstRanksBeforeOthers(b, x);
      CompareFlip(x, y);
      CompareTieIsSameKey(x, y);
      var k := Key(x);
      assert WithKey(a, k) == [x] + WithKey(a[1..], k);
      assert WithKey(b, k) == [y] + WithKey(b[1..], k);
      assert WithKey(a, k) == WithKey(b, k);
      assert x == y;
      forall k' ensures WithKey(a[1..], k') == WithKey(b[1..], k') {
        assert WithKey(a, k') == WithKey(b, k');
        var head := if k == k' then [x] else [];
        assert WithKey(a, k') == head + WithKey(a[1..], k');
        assert WithKey(b, k') == head + WithKey(b[1..], k');
        assert (head + WithKey(a[1..], k'))[|head|..] == WithKey(a[1..], k');
        assert (head + WithKey(b[1..], k'))[|head|..] == WithKey(b[1..], k');
      }
      SortedTail(a);
      SortedTail(b);
      SortedTieOrderUnique(a[1..], b[1..]);
      assert a == [x] + a[1..] && b == [y] + b[1..];
    }
  }

  /** Hence any stable sort by these keys computes SortView. */
  lemma StableSortIsSortView(s: seq<Candidate>, t: seq<Candidate>)
    requires Sorted(t) && SameTieOrder(t, s)
    ensures t == SortView(s)
  {
    SortViewSortedPermutation(s);
    SortViewStable(s);
    SortedTieOrderUnique(t, SortView(s));
  }

  /** Three candidates: NOTA 80 / CE 10 born 1990, NOTA 80 / CE 10 born
      1980, NOTA 90 / CE 5 born 2000. The third ranks first; of the two tied
      on both scores, the one born in 1980 ranks ahead. */
  lemma ThreeCandidateExample()
    ensures var r1 := Candidate("C", "L", "A", "1", Some(Date(1990, 1, 1)), 0, Some(10), Some(80), "NAO", "NAO", "CR");
      var r2 := Candidate("C", "L", "B", "2", Some(Date(1980, 1, 1)), 0, Some(10), Some(80), "NAO", "NAO", "CR");
      var r3 := Candidate("C", "L", "D", "3", Some(Date(2000, 1, 1)), 0, Some(5), Some(90), "NAO", "NAO", "VAGA");
      SortView([r1, r2, r3]) == [r3, r2, r1]
  {
    var r1 := Candidate("C", "L", "A", "1", Some(Date(1990, 1, 1)), 0, Some(10), Some(80), "NAO", "NAO", "CR");
    var r2 := Candidate("C", "L", "B", "2", Some(Date(1980, 1, 1)), 0, Some(10), Some(80), "NAO", "NAO", "CR");
    var r3 := Candidate("C", "L", "D", "3", Some(Date(2000, 1, 1)), 0, Some(5), Some(90), "NAO", "NAO", "VAGA");
    assert [r1, r2, r3][1..] == [r2, r3] && [r2, r3][1..] == [r3] && [r3][1..] == [];
    assert SortView([r3]) == [r3];
    assert SortView([r2, r3]) == Insert(r2, [r3]) == [r3, r2];
    assert !RanksBefore(r1, r3) && !RanksBefore(r1, r2);
    assert [r3, r2][1..] == [r2];
    assert Insert(r1, [r2]) == [r2, r1];
    assert Insert(r1, [r3, r2]) == [r3] + Insert(r1, [r2]);
  }

  // ---------------------------------------------------------------------
  // Helpers for the uniqueness proof.
  // ---------------------------------------------------------------------

  lemma {:induction false} WithKeyMembers(s: seq<Candidate>, k: RankKey, y: Candidate)
    requires y in WithKey(s, k)
    ensures y in s && Key(y) == k
  {
    if s != [] && !(Key(s[0]) == k && y == s[0]) {
      WithKeyMembers(s[1..], k, y);
    }
  }

  lemma BothEmptyOrNeither(a: seq<Candidate>, b: seq<Candidate>)
    requires SameTieOrder(a, b)
    ensures a == [] <==> b == []
  {
    if a != [] {
      assert WithKey(a, Key(a[0])) != [];
      assert WithKey(b, Key(a[0])) != [];
    }
    if b != [] {
      assert WithKey(b, Key(b[0])) != [];
      assert WithKey(a, Key(b[0])) != [];
    }
  }

  /** In a sorted view that holds a row tied with `y`, the first row ranks
      before `y`. */
  lemma FirstRanksBeforeOthers(a: seq<Candidate>, y: Candidate)
    requires Sorted(a) && a != [] && WithKey(a, Key(y)) != []
    ensures RanksBefore(a[0], y)
  {
    var z := WithKey(a, Key(y))[0];
    WithKeyMembers(a, Key(y), z);
    var m :| 0 <= m < |a| && a[m] == z;
    assert RanksBefore(a[0], z);
  }

  lemma SortedTail(a: seq<Candidate>)
    requires Sorted(a) && a != []
    ensures Sorted(a[1..])
  {
    forall i, j | 0 <= i < j < |a| - 1 ensures RanksBefore(a[1..][i], a[1..][j]) {
      assert a[1..][i] == a[i + 1] && a[1..][j] == a[j + 1];
    }
  }
}
