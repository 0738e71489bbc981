/**
 * `Report.find(filter).sort({ submissionDate: -1 })`: the listed reports,
 * most recent submission first. Reports with equal dates may come in either
 * order.
 */
module Ordering {
  import opened ReportSchema

  /** A listed report together with its id. */
  datatype Entry = Entry(id: string, report: Report)

  /** Submission dates never increase along the list. */
  predicate NewestFirst(rs: seq<Entry>) {
    forall i, j :: 0 <= i < j < |rs| ==> rs[i].report.submissionDate >= rs[j].report.submissionDate
  }

  /** No id is listed twice. */
  predicate DistinctIds(rs: seq<Entry>) {
    forall i, j :: 0 <= i < j < |rs| ==> rs[i].id != rs[j].id
  }

  /** The head of a newest-first list is at least as recent as every entry of it. */
  lemma HeadIsNewest(rs: seq<Entry>)
    requires NewestFirst(rs)
    ensures rs != [] ==> forall y :: y in rs ==> y.report.submissionDate <= rs[0].report.submissionDate
  {
    forall y | y in rs ensures y.report.submissionDate <= rs[0].report.submissionDate {
      var k :| 0 <= k < |rs| && rs[k] == y;
      if k > 0 {
        assert rs[0].report.submissionDate >= rs[k].report.submissionDate;
      }
    }
  }

  /** An entry at least as recent as every entry of a newest-first list may go in front of it. */
  lemma PrependNewest(x: Entry, t: seq<Entry>)
    requires NewestFirst(t)
    requires forall y :: y in t ==> y.report.submissionDate <= x.report.submissionDate
    ensures NewestFirst([x] + t)
  {
    var r := [x] + t;
    forall i, j | 0 <= i < j < |r| ensures r[i].report.submissionDate >= r[j].report.submissionDate {
      assert r[j] == t[j - 1];
      if i > 0 {
        assert r[i] == t[i - 1];
      } else {
        assert t[j - 1] in t;
      }
    }
  }

  /** An entry whose id no entry of a list carries may go in front of it, keeping ids distinct. */
  lemma PrependDistinct(x: Entry, t: seq<Entry>)
    requires DistinctIds(t)
    requires forall y :: y in t ==> y.id != x.id
    ensures DistinctIds([x] + t)
  {
    var r := [x] + t;
    forall i, j | 0 <= i < j < |r| ensures r[i].id != r[j].id {
      assert r[j] == t[j - 1];
      if i > 0 {
        assert r[i] == t[i - 1];
      } else {
        assert t[j - 1] in t;
      }
    }
  }

  /** Putting the same element in front of two lists keeps the difference of their multisets. */
  lemma ConsCounts<T>(h: T, t: seq<T>, rest: seq<T>, x: T)
    requires multiset(t) == multiset(rest) + multiset{x}
    ensures multiset([h] + t) == multiset([h] + rest) + multiset{x}
  {
  }

  /** A list holding one more `x` than another holds exactly its elements and `x`. */
  lemma OneMoreMembers<T>(a: seq<T>, b: seq<T>, x: T)
    requires multiset(a) == multiset(b) + multiset{x}
    ensures forall y :: y in a <==> y in b || y == x
  {
    forall y ensures y in a <==> y in b || y == x {
      assert y in a <==> y in multiset(a);
      assert y in b <==> y in multiset(b);
    }
  }

  /** Inserts `e` into a newest-first list, keeping it newest first and adding exactly `e`. */
  function InsertByDate(rs: seq<Entry>, e: Entry): (r: seq<Entry>)
    requires NewestFirst(rs)
    ensures NewestFirst(r)
    ensures multiset(r) == multiset(rs) + multiset{e}
    ensures forall x :: x in r <==> x in rs || x == e
  {
    HeadIsNewest(rs);
    if rs == [] || e.report.submissionDate >= rs[0].report.submissionDate then
      PrependNewest(e, rs);
      OneMoreMembers([e] + rs, rs, e);
      [e] + rs
    else
      var tail := InsertByDate(rs[1..], e);
      PrependNewest(rs[0], tail);
      ConsCounts(rs[0], tail, rs[1..], e);
      assert [rs[0]] + rs[1..] == rs;
      OneMoreMembers([rs[0]] + tail, rs, e);
      [rs[0]] + tail
  }

  /** Inserting an entry whose id is not yet listed keeps the ids distinct. */
  lemma {:induction false} InsertKeepsDistinct(rs: seq<Entry>, e: Entry)
    requires NewestFirst(rs) && DistinctIds(rs)
    requires forall x :: x in rs ==> x.id != e.id
    ensures DistinctIds(InsertByDate(rs, e))
  {
    if rs == [] || e.report.submissionDate >= rs[0].report.submissionDate {
      PrependDistinct(e, rs);
    } else {
      var tail := InsertByDate(rs[1..], e);
      InsertKeepsDistinct(rs[1..], e);
      forall x | x in tail ensures x.id != rs[0].id {
        if x != e {
          var k :| 0 <= k < |rs[1..]| && rs[1..][k] == x;
          assert rs[k + 1] == x;
        }
      }
      PrependDistinct(rs[0], tail);
    }
  }
}
