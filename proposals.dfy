/** `listar_propostas()`: the distinct proposal ids of the corpus, in
    ascending order, each with its title. The function has no route; it is
    a plain function of the corpus. */
module Proposals {
  import opened Wrappers
  import opened Strings
  import opened Corpus

  /** One entry of the result: `{"id": i, "titulo": "Proposta " + i}`. */
  datatype Proposal = Proposal(id: string, titulo: string)

  /** Ascending with no repeats, as `sorted` lists a set of strings. */
  ghost predicate StrictlyAscending(s: seq<string>) {
    forall i, j :: 0 <= i < j < |s| ==> LessEq(s[i], s[j]) && s[i] != s[j]
  }

  /** The values under `id_comentavel_raiz` across the corpus. */
  ghost function RootIds(corpus: seq<Record>): set<string> {
    set i | 0 <= i < |corpus| && Get(corpus[i], RootKey).Some? :: Get(corpus[i], RootKey).value
  }

  /** Adds `x` to an ascending list of distinct ids, unless it is there. */
  function InsertDistinct(x: string, t: seq<string>): seq<string> {
    if t == [] then [x]
    else if x == t[0] then t
    else if LessEq(x, t[0]) then [x] + t
    else [t[0]] + InsertDistinct(x, t[1..])
  }

  lemma {:induction false} InsertDistinctMembers(x: string, t: seq<string>)
    ensures forall y :: y in InsertDistinct(x, t) <==> y == x || y in t
  {
    if t != [] && x != t[0] && !LessEq(x, t[0]) {
      InsertDistinctMembers(x, t[1..]);
      assert t == [t[0]] + t[1..];
    }
  }

  /** An id below every id of an ascending list of distinct ids may go in
      front of it. */
  lemma ConsAscending(x: string, t: seq<string>)
    requires StrictlyAscending(t)
    requires forall j :: 0 <= j < |t| ==> LessEq(x, t[j]) && x != t[j]
    ensures StrictlyAscending([x] + t)
  {
    var r := [x] + t;
    forall i, j | 0 <= i < j < |r| ensures LessEq(r[i], r[j]) && r[i] != r[j] {
      if i == 0 {
        assert r[j] == t[j - 1];
      } else {
        assert r[i] == t[i - 1] && r[j] == t[j - 1];
      }
    }
  }

  lemma {:induction false} InsertDistinctAscending(x: string, t: seq<string>)
    requires StrictlyAscending(t)
    ensures StrictlyAscending(InsertDistinct(x, t))
  {
    if t == [] || x == t[0] {
    } else if LessEq(x, t[0]) {
      forall j | 0 <= j < |t| ensures LessEq(x, t[j]) && x != t[j] {
        if j > 0 {
          LessEqTransitive(x, t[0], t[j]);
          if x == t[j] {
            LessEqAntisymmetric(t[0], t[j]);
          }
        }
      }
      ConsAscending(x, t);
    } else {
      var rest := t[1..];
      InsertDistinctAscending(x, rest);
      InsertDistinctMembers(x, rest);
      var ins := InsertDistinct(x, rest);
      LessEqTotal(x, t[0]);
      forall j | 0 <= j < |ins| ensures LessEq(t[0], ins[j]) && t[0] != ins[j] {
        assert ins[j] in ins;
        if ins[j] != x {
          var m :| 0 <= m < |rest| && rest[m] == ins[j];
          assert t[m + 1] == ins[j];
        }
      }
      ConsAscending(t[0], ins);
    }
  }

  /** `sorted({c["id_comentavel_raiz"] for c in corpus})`: the subscript
      raises `KeyError` as soon as a record lacks the key; otherwise every
      root id of the corpus, each once, ascending. */
  function DistinctRootIds(corpus: seq<Record>): (r: Result<seq<string>, ApiError>)
    ensures r.Failure? <==> exists i :: 0 <= i < |corpus| && Get(corpus[i], RootKey).None?
    ensures r.Failure? ==> r.error == KeyError(RootKey)
    ensures r.Success? ==> StrictlyAscending(r.value)
    ensures r.Success? ==> forall x :: x in r.value <==> x in RootIds(corpus)
  {
    if corpus == [] then Success([])
    else
      match Get(corpus[0], RootKey)
      case None => Failure(KeyError(RootKey))
      case Some(v) =>
        match DistinctRootIds(corpus[1..])
        case Failure(e) =>
          assert forall i :: 0 <= i < |corpus[1..]| ==> corpus[1..][i] == corpus[i + 1];
          Failure(e)
        case Success(ids) =>
          InsertDistinctAscending(v, ids);
          InsertDistinctMembers(v, ids);
          RootIdsCons(corpus);
          Success(InsertDistinct(v, ids))
  }

  lemma RootIdsCons(corpus: seq<Record>)
    requires corpus != [] && Get(corpus[0], RootKey).Some?
    ensures RootIds(corpus) == {Get(corpus[0], RootKey).value} + RootIds(corpus[1..])
  {
    var tail := corpus[1..];
    forall x | x in RootIds(corpus) ensures x == Get(corpus[0], RootKey).value || x in RootIds(tail) {
      var i :| 0 <= i < |corpus| && Get(corpus[i], RootKey).Some? && Get(corpus[i], RootKey).value == x;
      if i > 0 {
        assert tail[i - 1] == corpus[i];
      }
    }
    forall x | x in RootIds(tail) ensures x in RootIds(corpus) {
      var i :| 0 <= i < |tail| && Get(tail[i], RootKey).Some? && Get(tail[i], RootKey).value == x;
      assert corpus[i + 1] == tail[i];
    }
  }

  /** Two ascending lists of distinct ids holding the same ids are equal:
      the sorted listing of a set is determined by the set. */
  lemma {:induction false} AscendingIsUnique(a: seq<string>, b: seq<string>)
    requires StrictlyAscending(a) && StrictlyAscending(b)
    requires forall x :: x in a <==> x in b
    ensures a == b
  {
    assert a != [] ==> a[0] in b;
    assert b != [] ==> b[0] in a;
    if a != [] && b != [] {
      assert b[0] in a;
      assert a[0] in b;
      var i :| 0 <= i < |a| && a[i] == b[0];
      var j :| 0 <= j < |b| && b[j] == a[0];
      if i != 0 && j != 0 {
        LessEqAntisymmetric(a[0], b[0]);
      }
      assert a[0] == b[0];
      forall x ensures x in a[1..] <==> x in b[1..] {
        if x in a[1..] {
          var k :| 0 <= k < |a[1..]| && a[1..][k] == x;
          assert a[k + 1] == x && x != a[0];
          assert x in b;
          var m :| 0 <= m < |b| && b[m] == x;
          assert m != 0;
          assert b[1..][m - 1] == x;
        }
        if x in b[1..] {
          var k :| 0 <= k < |b[1..]| && b[1..][k] == x;
          assert b[k + 1] == x && x != b[0];
          assert x in a;
          var m :| 0 <= m < |a| && a[m] == x;
          assert m != 0;
          assert a[1..][m - 1] == x;
        }
      }
      AscendingIsUnique(a[1..], b[1..]);
      assert a == [a[0]] + a[1..];
      assert b == [b[0]] + b[1..];
    }
  }

  /** The title template `f"Proposta {i}"`. */
  function Title(id: string): (t: string)
    ensures |t| == 9 + |id| && t[..9] == "Proposta " && t[9..] == id
  {
    "Proposta " + id
  }

  /** `listar_propostas()`: fails with `KeyError` exactly when a record lacks
      `id_comentavel_raiz`; otherwise one proposal per distinct root id,
      ids ascending with no repeats, every root id of the corpus present,
      each titled "Proposta " followed by its id. */
  function ListProposals(corpus: seq<Record>): (r: Result<seq<Proposal>, ApiError>)
    ensures r.Failure? <==> exists i :: 0 <= i < |corpus| && Get(corpus[i], RootKey).None?
    ensures r.Failure? ==> r.error == KeyError(RootKey)
    ensures r.Success? ==> forall i, j :: 0 <= i < j < |r.value| ==> LessEq(r.value[i].id, r.value[j].id) && r.value[i].id != r.value[j].id
    ensures r.Success? ==> forall p :: p in r.value ==> p.id in RootIds(corpus) && p.titulo == Title(p.id)
    ensures r.Success? ==> forall x :: x in RootIds(corpus) ==> Proposal(x, Title(x)) in r.value
  {
    match DistinctRootIds(corpus)
    case Failure(e) => Failure(e)
    case Success(ids) =>
      var ps := seq(|ids|, i requires 0 <= i < |ids| => Proposal(ids[i], Title(ids[i])));
      assert forall x :: x in RootIds(corpus) ==> Proposal(x, Title(x)) in ps by {
        forall x | x in RootIds(corpus) ensures Proposal(x, Title(x)) in ps {
          assert x in ids;
          var i :| 0 <= i < |ids| && ids[i] == x;
          assert ps[i] == Proposal(x, Title(x));
        }
      }
      Success(ps)
  }
}
