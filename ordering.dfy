/** The order of the listing: `sorted(corpus, key=lambda c:
    c.get("data_criacao", ""), reverse=True)`, newest first, records with
    equal dates kept in corpus order (Python's sort is stable, also when
    reversed). */
module Ordering {
  import opened Strings
  import opened Seqs
  import opened Corpus

  /** `x` is not older than `y`: its date is at least `y`'s. */
  predicate NotOlder(x: Record, y: Record) {
    LessEq(Created(y), Created(x))
  }

  /** Newest first: each record's date is at least that of every record
      after it. */
  ghost predicate Descending(s: seq<Record>) {
    Ordered(s, NotOlder)
  }

  /** The records of `s` dated `d`, in their order in `s`. */
  function OfDate(s: seq<Record>, d: string): seq<Record> {
    Filter(s, c => Created(c) == d)
  }

  /** `r` lists the records of each date in the order `s` does: the
      stability a Python sort guarantees. */
  ghost predicate KeepsTies(r: seq<Record>, s: seq<Record>) {
    forall d :: OfDate(r, d) == OfDate(s, d)
  }

  lemma OfDateCons(c: Record, t: seq<Record>, d: string)
    ensures OfDate([c] + t, d) == (if Created(c) == d then [c] else []) + OfDate(t, d)
  {
    assert ([c] + t)[1..] == t;
  }

  /** Places `c` before the first record that is not newer than it, so
      that it precedes every record of its own date. */
  function InsertByDate(c: Record, t: seq<Record>): seq<Record> {
    if t == [] || LessEq(Created(t[0]), Created(c)) then [c] + t
    else [t[0]] + InsertByDate(c, t[1..])
  }

  lemma {:induction false} InsertByDatePermutes(c: Record, t: seq<Record>)
    ensures multiset(InsertByDate(c, t)) == multiset(t) + multiset{c}
  {
    if !(t == [] || LessEq(Created(t[0]), Created(c))) {
      InsertByDatePermutes(c, t[1..]);
      assert t == [t[0]] + t[1..];
    }
  }

  lemma {:induction false} InsertByDateOfDate(c: Record, t: seq<Record>, d: string)
    ensures OfDate(InsertByDate(c, t), d) == (if Created(c) == d then [c] else []) + OfDate(t, d)
  {
    if t == [] || LessEq(Created(t[0]), Created(c)) {
      OfDateCons(c, t, d);
    } else {
      InsertByDateOfDate(c, t[1..], d);
      assert t == [t[0]] + t[1..];
      InsertByDateOfDateStep(c, t[0], t[1..], d);
    }
  }

  /** The step of `InsertByDateOfDate` past a newer head `t0`: `c` and `t0`
      never share the date `d`, so their order among the records of `d`
      does not matter. */
  lemma InsertByDateOfDateStep(c: Record, t0: Record, rest: seq<Record>, d: string)
    requires !LessEq(Created(t0), Created(c))
    requires OfDate(InsertByDate(c, rest), d) == (if Created(c) == d then [c] else []) + OfDate(rest, d)
    ensures OfDate(InsertByDate(c, [t0] + rest), d) == (if Created(c) == d then [c] else []) + OfDate([t0] + rest, d)
  {
    var own := if Created(c) == d then [c] else [];
    var head := if Created(t0) == d then [t0] else [];
    assert ([t0] + rest)[1..] == rest;
    OfDateCons(t0, InsertByDate(c, rest), d);
    OfDateCons(t0, rest, d);
    assert head == [] || own == [] by {
      if Created(c) == d {
        LessEqReflexive(d);
      }
    }
    SwapWhenOneEmpty(head, own, OfDate(rest, d));
  }

  lemma SwapWhenOneEmpty<X>(a: seq<X>, b: seq<X>, rest: seq<X>)
    requires a == [] || b == []
    ensures a + (b + rest) == b + (a + rest)
  {
  }

  /** Every record of `InsertByDate(c, t)` is `c` or a record of `t`. */
  lemma InsertByDateMember(c: Record, t: seq<Record>, j: nat)
    requires j < |InsertByDate(c, t)|
    ensures InsertByDate(c, t)[j] == c || InsertByDate(c, t)[j] in t
  {
    var r := InsertByDate(c, t);
    InsertByDatePermutes(c, t);
    assert r[j] in multiset(r);
  }

  /** A record not older than any record of a newest-first list may be put
      in front of it. */
  lemma ConsDescending(c: Record, t: seq<Record>)
    requires Descending(t)
    requires forall j :: 0 <= j < |t| ==> LessEq(Created(t[j]), Created(c))
    ensures Descending([c] + t)
  {
    var r := [c] + t;
    forall i, j | 0 <= i < j < |r| ensures LessEq(Created(r[j]), Created(r[i])) {
      if i == 0 {
        assert r[j] == t[j - 1];
      } else {
        assert r[i] == t[i - 1] && r[j] == t[j - 1];
      }
    }
  }

  lemma {:induction false} InsertByDateDescending(c: Record, t: seq<Record>)
    requires Descending(t)
    ensures Descending(InsertByDate(c, t))
  {
    if t == [] {
    } else if LessEq(Created(t[0]), Created(c)) {
      forall j | 0 <= j < |t| ensures LessEq(Created(t[j]), Created(c)) {
        if j > 0 {
          LessEqTransitive(Created(t[j]), Created(t[0]), Created(c));
        }
      }
      ConsDescending(c, t);
    } else {
      var t0, rest := t[0], t[1..];
      InsertByDateDescending(c, rest);
      var ins := InsertByDate(c, rest);
      LessEqTotal(Created(t0), Created(c));
      forall j | 0 <= j < |ins| ensures LessEq(Created(ins[j]), Created(t0)) {
        InsertByDateMember(c, rest, j);
        if ins[j] != c {
          var m :| 0 <= m < |rest| && rest[m] == ins[j];
          assert t[m + 1] == ins[j];
        }
      }
      ConsDescending(t0, ins);
    }
  }

  /** `sorted(s, key=Created, reverse=True)`: a permutation of `s`, newest
      first, with equal dates in the order of `s`. */
  function SortByDateDesc(s: seq<Record>): (r: seq<Record>)
    ensures |r| == |s|
    ensures multiset(r) == multiset(s)
    ensures Descending(r)
    ensures KeepsTies(r, s)
  {
    if s == [] then []
    else
      var rest := SortByDateDesc(s[1..]);
      InsertByDatePermutes(s[0], rest);
      assert |multiset(InsertByDate(s[0], rest))| == |rest| + 1;
      InsertByDateDescending(s[0], rest);
      assert s == [s[0]] + s[1..];
      assert forall d :: OfDate(s, d) == (if Created(s[0]) == d then [s[0]] else []) + OfDate(s[1..], d) by {
        forall d ensures OfDate(s, d) == (if Created(s[0]) == d then [s[0]] else []) + OfDate(s[1..], d) {
          OfDateCons(s[0], s[1..], d);
        }
      }
      assert forall d :: OfDate(InsertByDate(s[0], rest), d) == (if Created(s[0]) == d then [s[0]] else []) + OfDate(rest, d) by {
        forall d ensures OfDate(InsertByDate(s[0], rest), d) == (if Created(s[0]) == d then [s[0]] else []) + OfDate(rest, d) {
          InsertByDateOfDate(s[0], rest, d);
        }
      }
      InsertByDate(s[0], rest)
  }

  /** Lists that keep each date's records alike hold the same records. */
  lemma TiesShareMembers(a: seq<Record>, b: seq<Record>, i: nat)
    requires KeepsTies(a, b) && i < |b|
    ensures b[i] in a
  {
    assert b[i] in OfDate(b, Created(b[i]));
    assert b[i] in OfDate(a, Created(b[i]));
  }

  /** The first record of a newest-first list is not older than any record
      of it. */
  lemma HeadIsNewest(a: seq<Record>, x: Record)
    requires Descending(a) && x in a
    ensures LessEq(Created(x), Created(a[0]))
  {
    var i :| 0 <= i < |a| && a[i] == x;
    if i == 0 {
      LessEqReflexive(Created(x));
    }
  }

  lemma HeadDatesAgree(a: seq<Record>, b: seq<Record>)
    requires a != [] && b != []
    requires Descending(a) && Descending(b) && KeepsTies(a, b)
    ensures Created(a[0]) == Created(b[0])
  {
    TiesShareMembers(a, b, 0);
    HeadIsNewest(a, b[0]);
    assert KeepsTies(b, a);
    TiesShareMembers(b, a, 0);
    HeadIsNewest(b, a[0]);
    LessEqAntisymmetric(Created(a[0]), Created(b[0]));
  }

  lemma HeadsAgree(a: seq<Record>, b: seq<Record>)
    requires a != [] && b != []
    requires Created(a[0]) == Created(b[0]) && KeepsTies(a, b)
    ensures a[0] == b[0] && KeepsTies(a[1..], b[1..])
  {
    assert a == [a[0]] + a[1..];
    assert b == [b[0]] + b[1..];
    var d := Created(a[0]);
    assert a[0] == b[0] by {
      OfDateCons(a[0], a[1..], d);
      OfDateCons(b[0], b[1..], d);
      assert OfDate(a, d) == OfDate(b, d);
      assert OfDate(a, d)[0] == a[0];
    }
    forall x ensures OfDate(a[1..], x) == OfDate(b[1..], x) {
      var pa, pb := OfDate(a[1..], x), OfDate(b[1..], x);
      var h := if Created(a[0]) == x then [a[0]] else [];
      OfDateCons(a[0], a[1..], x);
      OfDateCons(b[0], b[1..], x);
      assert h + pa == h + pb;
      assert pa == (h + pa)[|h|..] && pb == (h + pb)[|h|..];
    }
  }

  /** Two arrangements that are both newest first and both keep each
      date's records in the same order are the same list. */
  lemma {:induction false} ArrangementIsUnique(a: seq<Record>, b: seq<Record>)
    requires Descending(a) && Descending(b) && KeepsTies(a, b)
    ensures a == b
  {
    if a != [] && b != [] {
      HeadDatesAgree(a, b);
      HeadsAgree(a, b);
      ArrangementIsUnique(a[1..], b[1..]);
      assert a == [a[0]] + a[1..];
      assert b == [b[0]] + b[1..];
    } else if a != [] {
      TiesShareMembers(b, a, 0);
    } else if b != [] {
      TiesShareMembers(a, b, 0);
    }
  }

  /** Any newest-first, tie-preserving arrangement of the corpus is the one
      `SortByDateDesc` computes: it is Python's stable reverse sort. */
  lemma SortByDateDescIsPythonSort(s: seq<Record>, r: seq<Record>)
    requires Descending(r) && KeepsTies(r, s)
    ensures r == SortByDateDesc(s)
  {
    ArrangementIsUnique(r, SortByDateDesc(s));
  }
}
