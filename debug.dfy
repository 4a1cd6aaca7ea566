/** The two diagnostic endpoints, `GET /debug/keys` and `GET /debug`. */
module Debug {
  import opened Corpus

  /** The field names of the first record, in its order; none for an empty
      corpus, where the source looks at an empty dictionary instead. */
  function DebugKeys(corpus: seq<Record>): (keys: seq<string>)
    ensures keys == [] <==> corpus == [] || corpus[0].fields == []
    ensures corpus != [] ==> |keys| == |corpus[0].fields|
    ensures corpus != [] ==> forall i :: 0 <= i < |keys| ==> keys[i] == corpus[0].fields[i].0
    ensures corpus != [] ==> forall key :: key in keys <==> Get(corpus[0], key).Some?
  {
    if corpus == [] then []
    else
      var ks := Keys(corpus[0]);
      assert forall key :: key in ks <==> Get(corpus[0], key).Some? by {
        forall key ensures key in ks <==> Get(corpus[0], key).Some? {
          KeysAgreeWithGet(corpus[0], key);
        }
      }
      ks
  }

  /** The body `{"total_comentarios": n}` of `GET /debug`. */
  datatype Count = Count(totalComentarios: nat)

  /** `GET /debug`: the number of records loaded, comments with and without
      text alike. */
  function DebugCount(corpus: seq<Record>): (r: Count)
    ensures r.totalComentarios == |corpus|
  {
    Count(|corpus|)
  }
}
