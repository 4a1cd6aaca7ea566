/** Worked requests on small corpora: two comments of one proposal, one
    of them without text, and the empty corpus. */
module Scenarios {
  import opened Wrappers
  import opened Strings
  import opened Seqs
  import opened Corpus
  import opened Sentiment
  import opened Ordering
  import opened Listing
  import opened Proposals
  import opened Analysis
  import opened Debug

  /** The newer comment of proposal "p1", with text. */
  function Newer(): Record {
    Record([("id", "1"), ("id_autor", "a"), ("corpo", "bom"), ("data_criacao", "2024-01-02"), ("id_comentavel_raiz", "p1")])
  }

  /** The older comment of proposal "p1", with an empty body. */
  function Older(): Record {
    Record([("id", "2"), ("id_autor", "b"), ("corpo", ""), ("data_criacao", "2024-01-01"), ("id_comentavel_raiz", "p1")])
  }

  function Sample(): seq<Record> {
    [Newer(), Older()]
  }

  /** The older comment's date sorts before the newer one's. */
  lemma SampleDates()
    ensures Created(Newer()) == "2024-01-02" && Created(Older()) == "2024-01-01"
    ensures LessEq(Created(Older()), Created(Newer()))
  {
    assert Created(Newer()) == "2024-01-02";
    assert Created(Older()) == "2024-01-01";
    DatesOrdered();
  }

  lemma DatesOrdered()
    ensures LessEq("2024-01-01", "2024-01-02")
  {
    assert SmallerAt("2024-01-01", "2024-01-02", 9);
    LessEqIsLexicographic("2024-01-01", "2024-01-02");
  }

  lemma SampleText()
    ensures HasText(Newer()) && Text(Newer()) == "bom"
    ensures !HasText(Older())
  {
    var f := Newer().fields;
    assert Lookup(f[4..], BodyKey) == None;
    assert Lookup(f[3..], BodyKey) == None;
    assert Lookup(f[2..], BodyKey) == Some("bom");
    assert Lookup(f[1..], BodyKey) == Some("bom");
    assert Body(Newer()) == "bom";
    assert !IsSpace('b') && !IsSpace('m');
    assert TrimStart("bom") == "bom";
    assert TrimEnd("bom") == "bom";
    var g := Older().fields;
    assert Lookup(g[2..], BodyKey) == Some("");
    assert Body(Older()) == "";
  }

  /** A comment with text followed by an older one without: any page size
      of at least two lists the first alone on page 1. */
  lemma PageOfTwo(a: Record, b: Record, limit: int, classify: Classifier)
    requires HasText(a) && !HasText(b) && LessEq(Created(b), Created(a))
    requires 2 <= limit <= 100
    ensures Emitted(SortByDateDesc([a, b]), PageStart(1, limit), limit, classify) == [Listed(a, classify)]
  {
    var s := [a, b];
    TwoSorted(a, b);
    assert Window(s, 0, limit) == s;
    assert Filter(s, HasText) == [a] by {
      assert s == [a] + [b];
      FilterConcat([a], [b], HasText);
    }
  }

  /** Two records already newest first are left as they are. */
  lemma TwoSorted(a: Record, b: Record)
    requires LessEq(Created(b), Created(a))
    ensures SortByDateDesc([a, b]) == [a, b]
  {
    var s := [a, b];
    assert Descending(s);
    assert KeepsTies(s, s);
    SortByDateDescIsPythonSort(s, s);
  }

  /** Page 1 of 10 of the sample: the comment without text is skipped, the
      other one is listed with its text. */
  lemma SampleListing(classify: Classifier)
    ensures Emitted(SortByDateDesc(Sample()), PageStart(1, 10), 10, classify) == [Listed(Newer(), classify)]
    ensures Listed(Newer(), classify).id == Some("1") && Listed(Newer(), classify).comentario == "bom"
  {
    SampleText();
    assert LessEq(Created(Older()), Created(Newer())) by {
      SampleDates();
    }
    PageOfTwo(Newer(), Older(), 10, classify);
    assert Get(Newer(), IdKey) == Some("1");
  }

  /** Both sample comments belong to proposal "p1". */
  lemma SampleRoots()
    ensures Get(Newer(), RootKey) == Some("p1") && RootIdText(Newer()) == "p1"
    ensures Get(Older(), RootKey) == Some("p1") && RootIdText(Older()) == "p1"
  {
    assert Get(Newer(), RootKey) == Some("p1");
    assert Get(Older(), RootKey) == Some("p1");
  }

  /** Two comments of one proposal yield that proposal alone. */
  lemma OneProposal(a: Record, b: Record, x: string)
    requires Get(a, RootKey) == Some(x) && Get(b, RootKey) == Some(x)
    ensures ListProposals([a, b]) == Success([Proposal(x, Title(x))])
  {
    var s := [a, b];
    assert RootIds(s) == {x} by {
      assert s == [a] + [b] && s[1..] == [b];
      RootIdsCons(s);
      RootIdsCons(s[1..]);
      assert s[1..][1..] == [];
    }
    var r := ListProposals(s);
    assert r.Success? by {
      forall i | 0 <= i < |s| ensures Get(s[i], RootKey).Some? {
        assert s[i] == a || s[i] == b;
      }
    }
    var ps := r.value;
    var p := Proposal(x, Title(x));
    assert p in ps;
    assert forall i :: 0 <= i < |ps| ==> ps[i] == p;
    assert |ps| > 1 ==> ps[0].id != ps[1].id;
    assert |ps| == 1;
    assert ps == [p];
  }

  /** The sample's comments both belong to "p1". */
  lemma SampleProposals()
    ensures ListProposals(Sample()) == Success([Proposal("p1", "Proposta p1")])
  {
    SampleRoots();
    OneProposal(Newer(), Older(), "p1");
    assert Title("p1") == "Proposta p1";
  }

  /** Two comments of proposal `id`, only the first with text: the analysis
      of `id` scores that one. */
  lemma AnalysisOfTwo(a: Record, b: Record, id: string, classify: Classifier)
    requires RootIdText(a) == id && RootIdText(b) == id && HasText(a) && !HasText(b)
    ensures Outcome([a, b], id, classify) == Success(Analysis(id, 1, [Scored(a, classify)]))
  {
    BothMatch(a, b, id);
    FirstKept(a, b);
    assert ScoredAll([a], classify) == [Scored(a, classify)];
  }

  lemma BothMatch(a: Record, b: Record, id: string)
    requires RootIdText(a) == id && RootIdText(b) == id
    ensures Matching([a, b], id) == [a, b]
  {
    assert [a, b] == [a] + [b];
    FilterConcat([a], [b], c => RootIdText(c) == id);
  }

  lemma FirstKept(a: Record, b: Record)
    requires HasText(a) && !HasText(b)
    ensures Filter([a, b], HasText) == [a]
  {
    assert [a, b] == [a] + [b];
    FilterConcat([a], [b], HasText);
  }

  /** An id that none of the comments has is the first 404. */
  lemma UnknownProposal(s: seq<Record>, id: string, classify: Classifier)
    requires forall c :: c in s ==> RootIdText(c) != id
    ensures Outcome(s, id, classify) == Failure(NotFound(NotFoundStatus, NoMatchDetail(id)))
  {
    assert !AnyMatch(s, id) by {
      forall i | 0 <= i < |s| ensures RootIdText(s[i]) != id {
        assert s[i] in s;
      }
    }
  }

  /** Proposal "p1" of the sample has one comment with text, scored. */
  lemma SampleAnalysis(classify: Classifier)
    ensures Outcome(Sample(), "p1", classify) == Success(Analysis("p1", 1, [Scored(Newer(), classify)]))
  {
    SampleText();
    SampleRoots();
    AnalysisOfTwo(Newer(), Older(), "p1", classify);
  }

  /** An id no sample comment has is the first 404. */
  lemma SampleUnknown(classify: Classifier)
    ensures Outcome(Sample(), "nonexistent", classify) == Failure(NotFound(NotFoundStatus, NoMatchDetail("nonexistent")))
  {
    SampleRoots();
    UnknownProposal(Sample(), "nonexistent", classify);
  }

  /** With no comments loaded both diagnostics report nothing, there are no
      proposals, any id is the first 404 and every page is empty. */
  lemma EmptyCorpus(id: string, page: int, limit: int, classify: Classifier)
    requires 1 <= page && 1 <= limit <= 100
    ensures DebugCount([]).totalComentarios == 0
    ensures DebugKeys([]) == []
    ensures ListProposals([]) == Success([])
    ensures Outcome([], id, classify) == Failure(NotFound(NotFoundStatus, NoMatchDetail(id)))
    ensures Emitted(SortByDateDesc([]), PageStart(page, limit), limit, classify) == []
  {
    assert DistinctRootIds([]) == Success([]);
    assert |ListProposals([]).value| == 0;
  }
}
