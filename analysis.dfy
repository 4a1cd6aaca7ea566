/** `GET /sentimentos/?id=`: the comments of one proposal with text, each
    classified and scored, or a 404 when there is nothing to show. */
module Analysis {
  import opened Wrappers
  import opened Seqs
  import opened Corpus
  import opened Sentiment

  /** One entry of the response's `comentarios`. */
  datatype ScoredComment = ScoredComment(
    id: Option<string>,
    idAutor: Option<string>,
    comentario: string,
    dataCriacao: Option<string>,
    score: real,
    sentimento: Category)

  /** The response body `{id_proposta, quantidade, comentarios}`. */
  datatype Analysis = Analysis(idProposta: string, quantidade: nat, comentarios: seq<ScoredComment>)

  const NotFoundStatus: nat := 404

  /** The detail of the 404 raised when no record belongs to the proposal. */
  function NoMatchDetail(id: string): string {
    "Nenhum comentário encontrado para id " + id
  }

  /** The detail of the 404 raised when the proposal's records have no text. */
  function NoTextDetail(id: string): string {
    "Nenhum comentário para id " + id
  }

  /** The two 404s carry different details for every id. */
  lemma DetailsDiffer(id: string)
    ensures NoMatchDetail(id) != NoTextDetail(id)
  {
    assert NoMatchDetail(id)[18] == 'e';
    assert NoTextDetail(id)[18] == 'p';
  }

  /** `[c for c in corpus if str(c.get("id_comentavel_raiz")) == id]`. */
  function Matching(corpus: seq<Record>, id: string): seq<Record> {
    Filter(corpus, c => RootIdText(c) == id)
  }

  /** A record without `id_comentavel_raiz` belongs to the id "None", the
      text Python gives the missing value. */
  lemma MissingRootMatchesNone(corpus: seq<Record>, i: nat)
    requires i < |corpus| && Get(corpus[i], RootKey).None?
    ensures corpus[i] in Matching(corpus, "None")
  {
  }

  /** Some record's root id, as text, is `id`. */
  predicate AnyMatch(corpus: seq<Record>, id: string) {
    exists i :: 0 <= i < |corpus| && RootIdText(corpus[i]) == id
  }

  /** Some record with text has the root id `id`. */
  predicate AnyMatchWithText(corpus: seq<Record>, id: string) {
    exists i :: 0 <= i < |corpus| && RootIdText(corpus[i]) == id && HasText(corpus[i])
  }

  lemma MatchingEmpty(corpus: seq<Record>, id: string)
    ensures Matching(corpus, id) == [] <==> !AnyMatch(corpus, id)
    ensures Filter(Matching(corpus, id), HasText) == [] <==> !AnyMatchWithText(corpus, id)
  {
    FilterEmpty(corpus, c => RootIdText(c) == id);
    FilterFilterEmpty(corpus, c => RootIdText(c) == id, HasText);
  }

  /** The entry emitted for a record: its stripped text, classified, with
      the prediction's score. */
  function Scored(c: Record, classify: Classifier): ScoredComment {
    var texto := Text(c);
    var pred := classify(texto);
    ScoredComment(Get(c, IdKey), Get(c, AuthorKey), texto, Get(c, CreatedKey), ScoreOf(pred), CategoryOf(pred))
  }

  /** The analysis's entry for each record, as a function. */
  function ScoredBy(classify: Classifier): Record -> ScoredComment {
    c => Scored(c, classify)
  }

  function ScoredAll(rs: seq<Record>, classify: Classifier): (out: seq<ScoredComment>)
    ensures |out| == |rs|
    ensures forall i :: 0 <= i < |rs| ==> out[i] == Scored(rs[i], classify)
  {
    Map(rs, ScoredBy(classify))
  }

  /** What `analisar_sentimentos(id)` answers. When no record's root id, as
      text, is `id`, the first 404; when some are but none has text, the
      second; otherwise success, echoing `id` and listing exactly the
      proposal's records that have text, each classified and scored, with
      `quantidade` their number, at least one. */
  function Outcome(corpus: seq<Record>, id: string, classify: Classifier): (r: Result<Analysis, ApiError>)
    ensures !AnyMatch(corpus, id) ==> r == Failure(NotFound(NotFoundStatus, NoMatchDetail(id)))
    ensures AnyMatch(corpus, id) && !AnyMatchWithText(corpus, id) ==>
      r == Failure(NotFound(NotFoundStatus, NoTextDetail(id)))
    ensures AnyMatchWithText(corpus, id) <==> r.Success?
    ensures r.Success? ==> r.value.idProposta == id && r.value.quantidade == |r.value.comentarios| >= 1
    ensures r.Success? ==> r.value.quantidade == |Filter(Matching(corpus, id), HasText)|
    ensures r.Success? ==> r.value.comentarios == ScoredAll(Filter(Matching(corpus, id), HasText), classify)
    ensures r.Success? ==> forall e :: e in r.value.comentarios ==>
      e.comentario != [] && exists c :: c in corpus && RootIdText(c) == id && HasText(c) && e == Scored(c, classify)
    ensures r.Success? ==> forall c :: c in corpus && RootIdText(c) == id && HasText(c) ==>
      Scored(c, classify) in r.value.comentarios
  {
    MatchingEmpty(corpus, id);
    var filtrados := Matching(corpus, id);
    if filtrados == [] then Failure(NotFound(NotFoundStatus, NoMatchDetail(id)))
    else
      var kept := Filter(filtrados, HasText);
      if kept == [] then Failure(NotFound(NotFoundStatus, NoTextDetail(id)))
      else
        ResultsOfProposal(corpus, id, classify);
        Success(Analysis(id, |kept|, ScoredAll(kept, classify)))
  }

  /** `analisar_sentimentos(id)`: filters the corpus by root id, fails if
      nothing matched, walks the matches skipping those without text and
      classifying the rest, fails if nothing was kept, and answers the
      kept entries and their count. */
  method AnalyzeSentiments(corpus: seq<Record>, id: string, classify: Classifier) returns (r: Result<Analysis, ApiError>)
    ensures r == Outcome(corpus, id, classify)
  {
    var filtrados := Matching(corpus, id);
    if filtrados == [] {
      return Failure(NotFound(NotFoundStatus, NoMatchDetail(id)));
    }
    var resultados: seq<ScoredComment> := [];
    for i := 0 to |filtrados|
      invariant resultados == ScoredAll(Filter(filtrados[..i], HasText), classify)
    {
      MapFilterSnoc(filtrados, i, HasText, ScoredBy(classify));
      var c := filtrados[i];
      var texto := Text(c);
      if texto == [] {
        continue;
      }
      var pred := classify(texto);
      var score := ScoreOf(pred);
      var sentimento := CategoryOf(pred);
      resultados := resultados + [ScoredComment(Get(c, IdKey), Get(c, AuthorKey), texto, Get(c, CreatedKey), score, sentimento)];
    }
    assert filtrados[..|filtrados|] == filtrados;
    if resultados == [] {
      return Failure(NotFound(NotFoundStatus, NoTextDetail(id)));
    }
    r := Success(Analysis(id, |resultados|, resultados));
  }

  /** The emitted entries are exactly those of the proposal's records with
      text. */
  lemma ResultsOfProposal(corpus: seq<Record>, id: string, classify: Classifier)
    ensures forall e :: e in ScoredAll(Filter(Matching(corpus, id), HasText), classify) ==>
      e.comentario != [] && exists c :: c in corpus && RootIdText(c) == id && HasText(c) && e == Scored(c, classify)
    ensures forall c :: c in corpus && RootIdText(c) == id && HasText(c) ==>
      Scored(c, classify) in ScoredAll(Filter(Matching(corpus, id), HasText), classify)
  {
    var kept := Filter(Matching(corpus, id), HasText);
    var out := ScoredAll(kept, classify);
    forall e | e in out
      ensures e.comentario != [] && exists c :: c in corpus && RootIdText(c) == id && HasText(c) && e == Scored(c, classify)
    {
      var k :| 0 <= k < |out| && out[k] == e;
      assert kept[k] in Matching(corpus, id);
    }
    forall c | c in corpus && RootIdText(c) == id && HasText(c)
      ensures Scored(c, classify) in out
    {
      var i :| 0 <= i < |corpus| && corpus[i] == c;
      assert c in Matching(corpus, id);
      var m :| 0 <= m < |Matching(corpus, id)| && Matching(corpus, id)[m] == c;
      assert c in kept;
      var k :| 0 <= k < |kept| && kept[k] == c;
      assert out[k] == Scored(c, classify);
    }
  }
}
