/** The comment corpus as the service holds it after `json.load`: a list of
    JSON objects, each an insertion-ordered dictionary from keys to values,
    read with `dict.get`. */
module Corpus {
  import opened Wrappers
  import opened Strings

  const IdKey := "id"
  const AuthorKey := "id_autor"
  const RootKey := "id_comentavel_raiz"
  const BodyKey := "corpo"
  const CreatedKey := "data_criacao"

  /** One comment record: its (key, value) entries in the order the JSON
      object lists them. Values are carried as text. */
  datatype Record = Record(fields: seq<(string, string)>)

  /** The errors a request can end in: an HTTP 404 with its detail message,
      or the `KeyError` of a subscript on a missing key. */
  datatype ApiError = NotFound(status: nat, detail: string) | KeyError(key: string)

  /** `fields.get(key)`: the value of the first entry under `key`. */
  function Lookup(fields: seq<(string, string)>, key: string): Option<string> {
    if fields == [] then None
    else if fields[0].0 == key then Some(fields[0].1)
    else Lookup(fields[1..], key)
  }

  /** The lookup finds a value exactly when some entry has the key, and the
      value it finds is that of an entry with the key. */
  lemma {:induction false} LookupFinds(fields: seq<(string, string)>, key: string)
    ensures Lookup(fields, key).None? <==> forall i :: 0 <= i < |fields| ==> fields[i].0 != key
    ensures Lookup(fields, key).Some? ==> (key, Lookup(fields, key).value) in fields
  {
    if fields != [] && fields[0].0 != key {
      LookupFinds(fields[1..], key);
      assert forall i :: 1 <= i < |fields| ==> fields[i] == fields[1..][i - 1];
    }
  }

  /** `c.get(key)`. */
  function Get(c: Record, key: string): Option<string> {
    Lookup(c.fields, key)
  }

  /** `list(c.keys())`. */
  function Keys(c: Record): (ks: seq<string>)
    ensures |ks| == |c.fields|
    ensures forall i :: 0 <= i < |ks| ==> ks[i] == c.fields[i].0
  {
    seq(|c.fields|, i requires 0 <= i < |c.fields| => c.fields[i].0)
  }

  /** A key is listed by `keys()` exactly when `get` finds a value for it. */
  lemma KeysAgreeWithGet(c: Record, key: string)
    ensures key in Keys(c) <==> Get(c, key).Some?
  {
    var ks := Keys(c);
    LookupFinds(c.fields, key);
    if key in ks {
      var i :| 0 <= i < |ks| && ks[i] == key;
      assert c.fields[i].0 == key;
    }
  }

  /** `c.get("corpo", "")`. */
  function Body(c: Record): string {
    Get(c, BodyKey).GetOr("")
  }

  /** `c.get("corpo", "").strip()`: the text both endpoints classify. */
  function Text(c: Record): string {
    Strip(Body(c))
  }

  /** The record has something to classify: `if not texto: continue` lets it
      through. */
  predicate HasText(c: Record) {
    Text(c) != []
  }

  /** A record lacks text exactly when its `corpo` is missing, empty or made
      only of whitespace. */
  lemma HasTextIffNotBlank(c: Record)
    ensures !HasText(c) <==> Get(c, BodyKey).None? || IsBlank(Get(c, BodyKey).value)
  {
    StripEmptyIffBlank(Body(c));
  }

  /** `c.get("data_criacao", "")`: the listing's sort key. */
  function Created(c: Record): string {
    Get(c, CreatedKey).GetOr("")
  }

  /** `str(c.get("id_comentavel_raiz"))`: Python renders a missing value as
      the text "None". */
  function RootIdText(c: Record): (t: string)
    ensures Get(c, RootKey).None? ==> t == "None"
    ensures Get(c, RootKey).Some? ==> t == Get(c, RootKey).value
  {
    match Get(c, RootKey)
    case None => "None"
    case Some(v) => v
  }
}
