/** Shapes shared by the cache, the translator and the request handler. */
module Models {

  /** A value or its absence (Python's None). */
  datatype Option<+T> = None | Some(value: T)

  /** The exceptions the modelled code can raise. */
  datatype Error =
    | IndexError   // a list index past the end of a list
    | ValueError   // range() called with a step of zero

  datatype Result<+T> = Ok(value: T) | Err(error: Error)

  /** One text to translate, with the code of the language it is written in. */
  datatype Item = Item(content: string, lang: string)

  /** A translated record as the translator builds it: the source text under
      `key` and `zh`, and one translated text per target-language code. The
      model's field `de` is never filled by the translator and is not modelled. */
  datatype TranslationResult = TranslationResult(key: string, zh: Option<string>, langs: map<string, string>)

  /** The seven target languages, in the order the request handler visits them
      and the translator builds its chains. */
  const TargetLangs: seq<string> := ["zh-TW", "tr", "th", "ja", "ko", "en", "my"]

  function LangSet(): set<string> {
    set l | l in TargetLangs
  }

  function Get<K, V>(m: map<K, V>, k: K): Option<V> {
    if k in m then Some(m[k]) else None
  }

  /** The `content` of every item, in order. */
  function Contents(items: seq<Item>): (r: seq<string>)
    ensures |r| == |items|
    ensures forall i :: 0 <= i < |items| ==> r[i] == items[i].content
  {
    seq(|items|, i requires 0 <= i < |items| => items[i].content)
  }

  predicate Distinct<T(==)>(s: seq<T>) {
    forall i, j :: 0 <= i < j < |s| ==> s[i] != s[j]
  }

  lemma TargetLangsDistinct()
    ensures Distinct(TargetLangs)
  {
  }
}
