/** The classifier adapter: the pretrained model is an uninterpreted
    function from text to its top prediction, and its raw label is folded
    into one of three categories. */
module Sentiment {
  import opened Wrappers
  import opened Strings

  /** The three categories the API reports, under the names it emits. */
  datatype Category = Positivo | Negativo | Neutro

  /** The first entry of the model's output: a dictionary that may carry a
      `label` and a `score`. */
  datatype Prediction = Prediction(rawLabel: Option<string>, rawScore: Option<real>)

  /** The sentiment model, taken as given: any total function of the text. */
  type Classifier = string -> Prediction

  /** The raw label `raw` spells the lower-case ASCII `word`, each letter in either case. */
  predicate EqualsIgnoringCase(raw: string, word: string) {
    && |raw| == |word|
    && forall i :: 0 <= i < |word| ==>
         raw[i] == word[i] || ('A' <= raw[i] <= 'Z' && raw[i] as int + 32 == word[i] as int)
  }

  /** For a lower-case word, lower-casing a raw label yields that word
      exactly when the label spells it in any mix of cases. */
  lemma LowerMatchesWord(raw: string, word: string)
    requires forall i :: 0 <= i < |word| ==> 'a' <= word[i] <= 'z'
    ensures Lower(raw) == word <==> EqualsIgnoringCase(raw, word)
  {
    var l := Lower(raw);
    if EqualsIgnoringCase(raw, word) {
      assert forall i :: 0 <= i < |word| ==> l[i] == word[i];
    }
    if l == word {
      forall i | 0 <= i < |word|
        ensures raw[i] == word[i] || ('A' <= raw[i] <= 'Z' && raw[i] as int + 32 == word[i] as int)
      {
        assert l[i] == LowerChar(raw[i]);
      }
    }
  }

  /** The label mapping: the raw label lower-cased is compared with
      "positive" and "negative"; everything else is neutral. */
  function Categorize(raw: string): (c: Category)
    ensures c == Positivo <==> EqualsIgnoringCase(raw, "positive")
    ensures c == Negativo <==> EqualsIgnoringCase(raw, "negative")
    ensures c == Neutro <==> !EqualsIgnoringCase(raw, "positive") && !EqualsIgnoringCase(raw, "negative")
  {
    LowerMatchesWord(raw, "positive");
    LowerMatchesWord(raw, "negative");
    var l := Lower(raw);
    if l == "positive" then Positivo
    else if l == "negative" then Negativo
    else Neutro
  }

  /** `pred.get("label", "")` mapped to its category: a prediction without a
      label is neutral. */
  function CategoryOf(p: Prediction): (c: Category)
    ensures p.rawLabel.None? ==> c == Neutro
    ensures p.rawLabel.Some? ==> c == Categorize(p.rawLabel.value)
  {
    Categorize(p.rawLabel.GetOr(""))
  }

  /** `pred.get("score", 0.0)`; the rounding to three decimals is not part
      of this model. */
  function ScoreOf(p: Prediction): (s: real)
    ensures p.rawScore.None? ==> s == 0.0
    ensures p.rawScore.Some? ==> s == p.rawScore.value
  {
    p.rawScore.GetOr(0.0)
  }

  /** Lower-casing the raw first changes nothing: the mapping already
      ignores case. */
  lemma {:induction false} CategorizeIgnoresCase(raw: string)
    ensures Categorize(Lower(raw)) == Categorize(raw)
  {
    var l := Lower(raw);
    assert Lower(l) == l by {
      forall i | 0 <= i < |l| ensures Lower(l)[i] == l[i] {
        assert l[i] == LowerChar(raw[i]);
      }
    }
  }
}
