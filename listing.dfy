/** `GET /comentarios/`: one page of the corpus, newest first, each comment
    with text classified, and the size of the whole corpus. */
module Listing {
  import opened Wrappers
  import opened Strings
  import opened Seqs
  import opened Corpus
  import opened Sentiment
  import opened Ordering

  /** One entry of the response's `comentarios`. */
  datatype ListedComment = ListedComment(
    id: Option<string>,
    idAutor: Option<string>,
    comentario: string,
    dataCriacao: Option<string>,
    sentimento: Category)

  /** The response body `{comentarios, total}`. */
  datatype Listing = Listing(comentarios: seq<ListedComment>, total: nat)

  /** The values `Query` gives a request that omits `page` or `limit`. */
  const DefaultPage := 1
  const DefaultLimit := 30

  /** Where page `page` of `limit` records starts, as `listar_comentarios`
      computes it. */
  function PageStart(page: int, limit: int): nat
    requires page >= 1 && limit >= 1
  {
    (page - 1) * limit
  }

  function Min(a: int, b: int): int {
    if a <= b then a else b
  }

  /** `s[start:start + limit]`, both bounds clamped to the length as Python
      slicing does. It holds at most `limit` records, those at positions
      `start, start + 1, ...` of `s`; it is full when `s` reaches `start +
      limit`, and it is empty, not an error, when `start` is past the end. */
  function Window<T>(s: seq<T>, start: nat, limit: nat): (w: seq<T>)
    ensures |w| <= limit
    ensures start >= |s| ==> w == []
    ensures start < |s| ==> start + |w| == Min(start + limit, |s|)
    ensures forall i :: 0 <= i < |w| ==> start + i < |s| && w[i] == s[start + i]
  {
    s[Min(start, |s|)..Min(start + limit, |s|)]
  }

  /** The entry emitted for a record: its stripped text, classified. */
  function Listed(c: Record, classify: Classifier): ListedComment {
    var texto := Text(c);
    ListedComment(Get(c, IdKey), Get(c, AuthorKey), texto, Get(c, CreatedKey), CategoryOf(classify(texto)))
  }

  /** The listing's entry for each record, as a function. */
  function ListedBy(classify: Classifier): Record -> ListedComment {
    c => Listed(c, classify)
  }

  function ListedAll(rs: seq<Record>, classify: Classifier): (out: seq<ListedComment>)
    ensures |out| == |rs|
    ensures forall i :: 0 <= i < |rs| ==> out[i] == Listed(rs[i], classify)
  {
    Map(rs, ListedBy(classify))
  }

  /** What the listing emits for the window of `sorted` at `start`: the
      records of the window that have text, in window order. */
  function Emitted(sorted: seq<Record>, start: nat, limit: nat, classify: Classifier): seq<ListedComment> {
    ListedAll(Filter(Window(sorted, start, limit), HasText), classify)
  }

  /** `listar_comentarios(page, limit)`: sorts the corpus newest first, walks
      the requested page, skips records without text and classifies the
      rest. At most `limit` comments come back, each the entry of a record
      with text at the page's positions of the sorted corpus, so its text is
      not empty; every such record is emitted; they come newest first; a
      page past the end yields none; and `total` is the size of the whole
      corpus. */
  method ListComments(corpus: seq<Record>, page: int, limit: int, classify: Classifier) returns (r: Listing)
    requires 1 <= page && 1 <= limit <= 100
    ensures r.total == |corpus|
    ensures r.comentarios == Emitted(SortByDateDesc(corpus), PageStart(page, limit), limit, classify)
    ensures |r.comentarios| <= limit
    ensures PageStart(page, limit) >= |corpus| ==> r.comentarios == []
    ensures forall k :: 0 <= k < |r.comentarios| ==> r.comentarios[k].comentario != []
    ensures forall k :: 0 <= k < |r.comentarios| ==>
      FromWindow(r.comentarios[k], SortByDateDesc(corpus), PageStart(page, limit), limit, classify)
    ensures forall j :: PageStart(page, limit) <= j < PageStart(page, limit) + limit && j < |corpus| ==>
      HasText(SortByDateDesc(corpus)[j]) ==> Listed(SortByDateDesc(corpus)[j], classify) in r.comentarios
    ensures forall i, j :: 0 <= i < j < |r.comentarios| ==>
      LessEq(r.comentarios[j].dataCriacao.GetOr(""), r.comentarios[i].dataCriacao.GetOr(""))
  {
    var ordenados := SortByDateDesc(corpus);
    var start := PageStart(page, limit);
    var window := Window(ordenados, start, limit);
    var comentarios: seq<ListedComment> := [];
    for i := 0 to |window|
      invariant comentarios == ListedAll(Filter(window[..i], HasText), classify)
    {
      MapFilterSnoc(window, i, HasText, ListedBy(classify));
      var c := window[i];
      var texto := Text(c);
      if texto == [] {
        continue;
      }
      var sentimento := CategoryOf(classify(texto));
      comentarios := comentarios + [ListedComment(Get(c, IdKey), Get(c, AuthorKey), texto, Get(c, CreatedKey), sentimento)];
    }
    assert window[..|window|] == window;
    r := Listing(comentarios, |ordenados|);
    EmittedFromWindow(ordenados, start, limit, classify);
    EmittedCoversWindow(ordenados, start, limit, classify);
    EmittedNewestFirst(ordenados, start, limit, classify);
  }

  /** `e` is the entry of a record with text at one of the positions
      `start .. start + limit - 1` of `sorted`. */
  ghost predicate FromWindow(e: ListedComment, sorted: seq<Record>, start: nat, limit: nat, classify: Classifier) {
    exists j :: start <= j < start + limit && j < |sorted| && HasText(sorted[j]) && e == Listed(sorted[j], classify)
  }

  /** Every emitted comment has non-empty text and is the entry of a record
      with text at one of the window's positions. */
  lemma EmittedFromWindow(sorted: seq<Record>, start: nat, limit: nat, classify: Classifier)
    ensures forall k :: 0 <= k < |Emitted(sorted, start, limit, classify)| ==>
      Emitted(sorted, start, limit, classify)[k].comentario != []
    ensures forall k :: 0 <= k < |Emitted(sorted, start, limit, classify)| ==>
      FromWindow(Emitted(sorted, start, limit, classify)[k], sorted, start, limit, classify)
  {
    var w := Window(sorted, start, limit);
    var kept := Filter(w, HasText);
    var out := Emitted(sorted, start, limit, classify);
    forall k | 0 <= k < |out|
      ensures out[k].comentario != []
      ensures FromWindow(out[k], sorted, start, limit, classify)
    {
      assert kept[k] in w && HasText(kept[k]);
      var m :| 0 <= m < |w| && w[m] == kept[k];
      var j := start + m;
      assert sorted[j] == kept[k];
      assert start <= j < start + limit && j < |sorted|;
      assert out[k] == Listed(sorted[j], classify);
    }
  }

  /** Every record with text at one of the window's positions is emitted. */
  lemma EmittedCoversWindow(sorted: seq<Record>, start: nat, limit: nat, classify: Classifier)
    ensures forall j :: start <= j < start + limit && j < |sorted| ==>
      HasText(sorted[j]) ==> Listed(sorted[j], classify) in Emitted(sorted, start, limit, classify)
  {
    var w := Window(sorted, start, limit);
    var kept := Filter(w, HasText);
    var out := Emitted(sorted, start, limit, classify);
    forall j | start <= j < start + limit && j < |sorted| && HasText(sorted[j])
      ensures Listed(sorted[j], classify) in out
    {
      assert w[j - start] == sorted[j];
      assert sorted[j] in kept;
      var k :| 0 <= k < |kept| && kept[k] == sorted[j];
      assert out[k] == Listed(sorted[j], classify);
    }
  }

  /** From a newest-first list the comments are emitted newest first, a
      missing date read as "". */
  lemma EmittedNewestFirst(sorted: seq<Record>, start: nat, limit: nat, classify: Classifier)
    requires Descending(sorted)
    ensures forall i, j :: 0 <= i < j < |Emitted(sorted, start, limit, classify)| ==>
      LessEq(Emitted(sorted, start, limit, classify)[j].dataCriacao.GetOr(""),
             Emitted(sorted, start, limit, classify)[i].dataCriacao.GetOr(""))
  {
    var w := Window(sorted, start, limit);
    assert Descending(w) by {
      forall i, j | 0 <= i < j < |w| ensures NotOlder(w[i], w[j]) {
        assert w[i] == sorted[start + i];
        assert w[j] == sorted[start + j];
      }
    }
    FilterKeepsOrder(w, HasText, NotOlder);
    var kept := Filter(w, HasText);
    var out := Emitted(sorted, start, limit, classify);
    forall i, j | 0 <= i < j < |out| ensures LessEq(out[j].dataCriacao.GetOr(""), out[i].dataCriacao.GetOr("")) {
      assert NotOlder(kept[i], kept[j]);
    }
  }
}
