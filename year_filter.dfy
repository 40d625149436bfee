/** `filterByYear` and the plot title: the rows shown for one year, and the
    title text that names that year. */
module YearFilter {
  import opened Rows

  /** The rows of `rows` whose `time` is `year`, in their original order. */
  function RowsOfYear(rows: seq<Row>, year: string): (view: seq<Row>)
    ensures |view| <= |rows|
    ensures forall r :: r in view ==> r.time == year && r in rows
  {
    if |rows| == 0 then []
    else (if rows[0].time == year then [rows[0]] else []) + RowsOfYear(rows[1..], year)
  }

  /** `a` is `b` with some elements left out, the rest kept in order. */
  ghost predicate IsSubsequence<T>(a: seq<T>, b: seq<T>)
    decreases |b|
  {
    a == [] || (|b| > 0 && ((a[0] == b[0] && IsSubsequence(a[1..], b[1..])) || IsSubsequence(a, b[1..])))
  }

  lemma {:induction false} SubsequenceReflexive<T>(a: seq<T>)
    ensures IsSubsequence(a, a)
    decreases |a|
  {
    if |a| > 0 {
      SubsequenceReflexive(a[1..]);
    }
  }

  /** A subsequence has at most as many copies of each value as the sequence. */
  lemma {:induction false} SubsequenceCounts<T>(a: seq<T>, b: seq<T>, x: T)
    requires IsSubsequence(a, b)
    ensures multiset(a)[x] <= multiset(b)[x]
    decreases |b|
  {
    if a != [] {
      assert b == [b[0]] + b[1..];
      if a[0] == b[0] && IsSubsequence(a[1..], b[1..]) {
        SubsequenceCounts(a[1..], b[1..], x);
        assert a == [a[0]] + a[1..];
      } else {
        SubsequenceCounts(a, b[1..], x);
      }
    }
  }

  /** Every element of a subsequence is an element of the sequence. */
  lemma SubsequenceMembers<T>(a: seq<T>, b: seq<T>, x: T)
    requires IsSubsequence(a, b)
    requires x in a
    ensures x in b
  {
    SubsequenceCounts(a, b, x);
    assert multiset(a)[x] > 0;
  }

  /** The view keeps the order of the master list. */
  lemma {:induction false} RowsOfYearKeepsOrder(rows: seq<Row>, year: string)
    ensures IsSubsequence(RowsOfYear(rows, year), rows)
    decreases |rows|
  {
    if |rows| > 0 {
      RowsOfYearKeepsOrder(rows[1..], year);
      var v := RowsOfYear(rows, year);
      if rows[0].time == year {
        assert v != [] && v[0] == rows[0] && v[1..] == RowsOfYear(rows[1..], year);
      } else {
        assert v == RowsOfYear(rows[1..], year);
      }
    }
  }

  /** Every copy of every row of that year is in the view, and nothing else. */
  lemma {:induction false} RowsOfYearCounts(rows: seq<Row>, year: string, r: Row)
    ensures multiset(RowsOfYear(rows, year))[r] == if r.time == year then multiset(rows)[r] else 0
    decreases |rows|
  {
    if |rows| > 0 {
      RowsOfYearCounts(rows[1..], year, r);
      assert rows == [rows[0]] + rows[1..];
    } else {
      assert RowsOfYear(rows, year) == [];
    }
  }

  /** A row of the master list is in the view exactly when its year is the
      selected one. */
  lemma RowsOfYearMembership(rows: seq<Row>, year: string, r: Row)
    requires r in rows
    ensures r in RowsOfYear(rows, year) <==> r.time == year
  {
    RowsOfYearCounts(rows, year, r);
    assert multiset(rows)[r] > 0;
  }

  /** The view is the only subsequence of the master list that has the rows of
      the year with their full multiplicity and no other rows: it is exactly
      the year's rows, in order. */
  lemma {:induction false} RowsOfYearIsUnique(rows: seq<Row>, year: string, v: seq<Row>)
    requires IsSubsequence(v, rows)
    requires forall r :: multiset(v)[r] == if r.time == year then multiset(rows)[r] else 0
    ensures v == RowsOfYear(rows, year)
    decreases |rows|
  {
    if |rows| == 0 {
      assert v == [];
    } else {
      var tail := rows[1..];
      assert rows == [rows[0]] + tail;
      if v != [] && v[0] == rows[0] && IsSubsequence(v[1..], tail) {
        assert v == [v[0]] + v[1..];
        assert multiset(v)[v[0]] > 0;
        forall r
          ensures multiset(v[1..])[r] == if r.time == year then multiset(tail)[r] else 0
        {
        }
        RowsOfYearIsUnique(tail, year, v[1..]);
      } else {
        assert IsSubsequence(v, tail);
        if rows[0].time == year {
          assert multiset(v)[rows[0]] == multiset(tail)[rows[0]] + 1;
          SubsequenceCounts(v, tail, rows[0]);
          assert false;
        }
        forall r
          ensures multiset(v)[r] == if r.time == year then multiset(tail)[r] else 0
        {
          if r == rows[0] {
            assert multiset(v)[r] == 0;
            SubsequenceCounts(v, tail, r);
          }
        }
        RowsOfYearIsUnique(tail, year, v);
      }
    }
  }

  /** A year that no row has gives an empty view; a year that some row has
      gives a non-empty one. */
  lemma RowsOfYearEmpty(rows: seq<Row>, year: string)
    ensures RowsOfYear(rows, year) == [] <==> forall r :: r in rows ==> r.time != year
  {
    forall r | r in rows
      ensures r in RowsOfYear(rows, year) <==> r.time == year
    {
      RowsOfYearMembership(rows, year, r);
    }
    if RowsOfYear(rows, year) != [] {
      assert RowsOfYear(rows, year)[0] in RowsOfYear(rows, year);
    }
  }

  /** Filtering the view again by the same year changes nothing. */
  lemma {:induction false} RowsOfYearIdempotent(rows: seq<Row>, year: string)
    ensures RowsOfYear(RowsOfYear(rows, year), year) == RowsOfYear(rows, year)
    decreases |rows|
  {
    if |rows| > 0 {
      RowsOfYearIdempotent(rows[1..], year);
      var v := RowsOfYear(rows, year);
      if rows[0].time == year {
        assert v[0] == rows[0] && v[1..] == RowsOfYear(rows[1..], year);
        assert RowsOfYear(v, year) == [v[0]] + RowsOfYear(v[1..], year);
      } else {
        assert v == RowsOfYear(rows[1..], year);
      }
    }
  }

  /** The fixed start of the plot title. */
  const TitlePrefix: string := "Life Expectancy vs Fertility - "

  /** The title drawn above the plot for the selected year. */
  function Title(year: string): (t: string)
    ensures |t| == |TitlePrefix| + |year|
    ensures t[..|TitlePrefix|] == TitlePrefix && t[|TitlePrefix|..] == year
  {
    TitlePrefix + year
  }

  /** Different years give different titles. */
  lemma TitleNamesTheYear(a: string, b: string)
    requires Title(a) == Title(b)
    ensures a == b
  {
    assert a == Title(a)[|TitlePrefix|..];
  }

  /** Three rows, A and B of 1960 and C of 1970: year "1960" keeps A and B,
      year "1970" keeps C, and a year without rows keeps nothing. */
  lemma ThreeRowExample()
    ensures var a, b, c := Row("A", "1960", 6.0, 40.0, 10.0), Row("B", "1960", 3.0, 60.0, 50.0),
                           Row("C", "1970", 5.0, 50.0, 20.0);
      RowsOfYear([a, b, c], "1960") == [a, b]
      && RowsOfYear([a, b, c], "1970") == [c]
      && RowsOfYear([a, b, c], "1980") == []
  {
    var a, b, c := Row("A", "1960", 6.0, 40.0, 10.0), Row("B", "1960", 3.0, 60.0, 50.0),
                   Row("C", "1970", 5.0, 50.0, 20.0);
    assert "1960" != "1970" && "1960" != "1980" && "1970" != "1980" by {
      assert "1960"[2] != "1970"[2] && "1960"[2] != "1980"[2] && "1970"[2] != "1980"[2];
    }
    var rows := [a, b, c];
    assert rows[1..] == [b, c] && [b, c][1..] == [c] && [c][1..] == [];
    assert RowsOfYear([c], "1960") == [];
    assert RowsOfYear([b, c], "1960") == [b];
    assert RowsOfYear(rows, "1960") == [a, b];
    assert RowsOfYear([c], "1970") == [c];
    assert RowsOfYear([b, c], "1970") == [c];
    assert RowsOfYear(rows, "1970") == [c];
    assert RowsOfYear([c], "1980") == [];
    assert RowsOfYear([b, c], "1980") == [];
    assert RowsOfYear(rows, "1980") == [];
  }
}
