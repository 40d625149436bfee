/** The years offered by the year drop-down: the keys of
    `d3.map(allYearsData, d => d.time)`, which are the distinct `time` values in
    the order in which each first appears in the data. */
module YearList {
  import opened Rows

  predicate NoDuplicates<T(==)>(s: seq<T>) {
    forall i, j :: 0 <= i < j < |s| ==> s[i] != s[j]
  }

  /** Index of the first occurrence of x in s. */
  function FirstIndex<T(==)>(s: seq<T>, x: T): (k: nat)
    requires x in s
    ensures k < |s| && s[k] == x && x !in s[..k]
  {
    if s[0] == x then 0
    else
      assert s == [s[0]] + s[1..];
      var k := 1 + FirstIndex(s[1..], x);
      assert s[..k] == [s[0]] + s[1..][..k - 1];
      k
  }

  /** Appending to a sequence does not move the first occurrence of a value
      that is already there. */
  lemma {:induction false} FirstIndexOfPrefix<T>(s: seq<T>, y: T, x: T)
    requires x in s
    ensures x in s + [y] && FirstIndex(s + [y], x) == FirstIndex(s, x)
  {
    assert (s + [y])[0] == s[0];
    if s[0] != x {
      assert s == [s[0]] + s[1..];
      assert (s + [y])[1..] == s[1..] + [y];
      FirstIndexOfPrefix(s[1..], y, x);
    }
  }

  /** A value appended to a sequence that lacks it first occurs at the end. */
  lemma {:induction false} FirstIndexOfNew<T>(s: seq<T>, y: T)
    requires y !in s
    ensures y in s + [y] && FirstIndex(s + [y], y) == |s|
  {
    assert (s + [y])[|s|] == y;
    if |s| > 0 {
      assert (s + [y])[0] == s[0];
      assert (s + [y])[1..] == s[1..] + [y];
      FirstIndexOfNew(s[1..], y);
    }
  }

  /** The distinct values of s, each once, in order of first appearance. Each
      key is kept where d3's map first inserted it; a repeated key only
      overwrites the value stored under it. */
  function Distinct<T(==,!new)>(s: seq<T>): (r: seq<T>)
    ensures forall x :: x in r <==> x in s
    ensures NoDuplicates(r)
    ensures |r| <= |s|
  {
    if |s| == 0 then []
    else
      var init := s[..|s| - 1];
      var last := s[|s| - 1];
      assert s == init + [last];
      var d := Distinct(init);
      if last in d then d else d + [last]
  }

  /** r lists values of s in the order of their first appearance in s. */
  predicate InFirstAppearanceOrder<T(==)>(s: seq<T>, r: seq<T>)
    requires forall i :: 0 <= i < |r| ==> r[i] in s
  {
    forall i, j :: 0 <= i < j < |r| ==> FirstIndex(s, r[i]) < FirstIndex(s, r[j])
  }

  /** Distinct lists the values in the order of their first appearance in s. */
  lemma {:induction false} DistinctInFirstAppearanceOrder<T(!new)>(s: seq<T>)
    ensures InFirstAppearanceOrder(s, Distinct(s))
    decreases |s|
  {
    if |s| > 0 {
      var init, last := s[..|s| - 1], s[|s| - 1];
      assert s == init + [last];
      DistinctInFirstAppearanceOrder(init);
      var d, r := Distinct(init), Distinct(s);
      forall i, j | 0 <= i < j < |r|
        ensures FirstIndex(s, r[i]) < FirstIndex(s, r[j])
      {
        assert r[i] in d;
        FirstIndexOfPrefix(init, last, r[i]);
        if j < |d| {
          FirstIndexOfPrefix(init, last, r[j]);
        } else {
          assert r[j] == last && last !in init;
          assert FirstIndex(s, last) == |init| by {
            assert last !in s[..|init|];
          }
        }
      }
    }
  }

  lemma OrderInPrefix<T>(init: seq<T>, last: T, r: seq<T>)
    requires forall i :: 0 <= i < |r| ==> r[i] in init
    ensures forall i :: 0 <= i < |r| ==> r[i] in init + [last]
    ensures InFirstAppearanceOrder(init + [last], r) ==> InFirstAppearanceOrder(init, r)
  {
    forall i | 0 <= i < |r|
      ensures r[i] in init + [last] && FirstIndex(init + [last], r[i]) == FirstIndex(init, r[i])
    {
      FirstIndexOfPrefix(init, last, r[i]);
    }
  }

  /** A non-empty sequence holds its first element. `DistinctIsUnique` uses it
      when s is empty, where r must then be empty too. */
  lemma HeadIsMember<T>(r: seq<T>)
    ensures |r| > 0 ==> r[0] in r
  {
  }

  /** The three properties of Distinct determine it: any duplicate-free list of
      exactly the values of s, in order of first appearance, is Distinct(s). */
  lemma {:induction false} DistinctIsUnique<T(!new)>(s: seq<T>, r: seq<T>)
    requires forall x :: x in r <==> x in s
    requires NoDuplicates(r)
    requires InFirstAppearanceOrder(s, r)
    ensures r == Distinct(s)
    decreases |s|
  {
    if |s| == 0 {
      HeadIsMember(r);
    } else {
      var init, last := s[..|s| - 1], s[|s| - 1];
      assert s == init + [last];
      if last in init {
        UniqueWhenLastRepeats(init, last, r);
        DistinctIsUnique(init, r);
      } else {
        var r' := UniqueWhenLastIsNew(init, last, r);
        DistinctIsUnique(init, r');
      }
    }
  }

  /** If the last value of s repeats an earlier one, r satisfies the same three
      properties for the prefix. */
  lemma UniqueWhenLastRepeats<T>(init: seq<T>, last: T, r: seq<T>)
    requires last in init
    requires forall x :: x in r <==> x in init + [last]
    requires InFirstAppearanceOrder(init + [last], r)
    ensures forall x :: x in r <==> x in init
    ensures InFirstAppearanceOrder(init, r)
  {
    forall x
      ensures x in r <==> x in init
    {
      assert x in init + [last] <==> x in init || x == last;
    }
    OrderInPrefix(init, last, r);
    assert InFirstAppearanceOrder(init + [last], r);
  }

  /** If the last value of s is new, it is the last value of r, and the rest of
      r satisfies the three properties for the prefix. */
  lemma UniqueWhenLastIsNew<T>(init: seq<T>, last: T, r: seq<T>) returns (r': seq<T>)
    requires last !in init
    requires forall x :: x in r <==> x in init + [last]
    requires NoDuplicates(r)
    requires InFirstAppearanceOrder(init + [last], r)
    ensures r == r' + [last]
    ensures forall x :: x in r' <==> x in init
    ensures NoDuplicates(r')
    ensures InFirstAppearanceOrder(init, r')
  {
    var s := init + [last];
    assert last in s;
    NewLastComesLast(init, last, r);
    r' := r[..|r| - 1];
    assert r == r' + [last];
    forall x
      ensures x in r' <==> x in init
    {
      assert x in s <==> x in init || x == last;
      assert x in r <==> x in r' || x == last;
      if x in r' {
        var k :| 0 <= k < |r'| && r'[k] == x;
        assert r[k] == x && k < |r| - 1;
      }
    }
    OrderInPrefix(init, last, r');
    assert InFirstAppearanceOrder(s, r') by {
      forall i, j | 0 <= i < j < |r'|
        ensures FirstIndex(s, r'[i]) < FirstIndex(s, r'[j])
      {
        assert r[i] == r'[i] && r[j] == r'[j];
      }
    }
  }

  /** A value that first appears at the very end of s comes last in any list
      of values of s in first-appearance order that holds it. */
  lemma NewLastComesLast<T>(init: seq<T>, last: T, r: seq<T>)
    requires last !in init
    requires forall x :: x in r <==> x in init + [last]
    requires InFirstAppearanceOrder(init + [last], r)
    ensures |r| > 0 && r[|r| - 1] == last
  {
    var s := init + [last];
    assert last in s;
    var m :| 0 <= m < |r| && r[m] == last;
    FirstIndexOfNew(init, last);
    assert r[|r| - 1] in s;
    assert FirstIndex(s, r[|r| - 1]) <= FirstIndex(s, r[m]);
  }

  /** The entries of the year drop-down. */
  function YearOptions(rows: seq<Row>): (years: seq<string>)
    ensures NoDuplicates(years)
    ensures forall y :: y in years <==> exists i :: 0 <= i < |rows| && rows[i].time == y
  {
    var times := Times(rows);
    assert forall y :: y in times <==> exists i :: 0 <= i < |rows| && rows[i].time == y by {
      forall y | y in times
        ensures exists i :: 0 <= i < |rows| && rows[i].time == y
      {
        var i :| 0 <= i < |times| && times[i] == y;
        assert rows[i].time == y;
      }
      forall y | exists i :: 0 <= i < |rows| && rows[i].time == y
        ensures y in times
      {
        var i :| 0 <= i < |rows| && rows[i].time == y;
        assert times[i] == y;
      }
    }
    Distinct(times)
  }

  /** The years of the drop-down appear in the order in which the data first
      mentions them. */
  lemma YearOptionsInFirstAppearanceOrder(rows: seq<Row>)
    ensures forall i :: 0 <= i < |YearOptions(rows)| ==> YearOptions(rows)[i] in Times(rows)
    ensures InFirstAppearanceOrder(Times(rows), YearOptions(rows))
  {
    DistinctInFirstAppearanceOrder(Times(rows));
  }
}
