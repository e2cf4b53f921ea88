/** One pass of the request handler's loop over the target languages: the
    cache lookup, the partition into cached and missed texts, the translation
    and save of the misses, and the merge of cached and fresh values.

    The translator is a parameter `translate(items)` that gives the list of
    values for the items, or None when the call raises. The handler stores and
    returns those values without looking inside them, so they have an opaque
    type V here. */
module LanguageSteps {
  import opened Models
  import opened Crud

  /** `to_translate`: the items whose text the cache lookup did not return, in
      request order. It holds every such item and no other. */
  function Uncached<V>(data: seq<Item>, cached: map<string, V>): (r: seq<Item>)
    ensures |r| <= |data|
    ensures forall k :: 0 <= k < |r| ==> r[k] in data && r[k].content !in cached
    ensures forall i :: 0 <= i < |data| && data[i].content !in cached ==> data[i] in r
    ensures |data| == 1 ==> r == if data[0].content in cached then [] else data
  {
    if |data| == 0 then []
    else
      assert forall i :: 1 <= i < |data| ==> data[i] == data[1..][i - 1];
      (if data[0].content in cached then [] else [data[0]]) + Uncached(data[1..], cached)
  }

  /** The filter keeps request order: the misses of a concatenation are the
      misses of its first part followed by those of its second. */
  lemma {:induction false} UncachedAppend<V>(a: seq<Item>, b: seq<Item>, cached: map<string, V>)
    ensures Uncached(a + b, cached) == Uncached(a, cached) + Uncached(b, cached)
    decreases |a|
  {
    if |a| == 0 {
      assert a + b == b;
    } else {
      var head := if a[0].content in cached then [] else [a[0]];
      assert a == [a[0]] + a[1..] && a + b == [a[0]] + (a[1..] + b);
      UncachedCons(a[0], a[1..], cached);
      UncachedCons(a[0], a[1..] + b, cached);
      UncachedAppend(a[1..], b, cached);
      ConcatAssoc(head, Uncached(a[1..], cached), Uncached(b, cached));
    }
  }

  lemma ConcatAssoc<T>(x: seq<T>, y: seq<T>, z: seq<T>)
    ensures x + (y + z) == (x + y) + z
  {
  }

  /** The filter's step on one leading item. */
  lemma UncachedCons<V>(x: Item, rest: seq<Item>, cached: map<string, V>)
    ensures Uncached([x] + rest, cached) == (if x.content in cached then [] else [x]) + Uncached(rest, cached)
  {
    assert ([x] + rest)[0] == x && ([x] + rest)[1..] == rest;
  }

  /** The dict built from the first n pairs of `zip(keys, vals)`, inserted in order. */
  function ZipPrefix<V>(keys: seq<string>, vals: seq<V>, n: nat): (r: map<string, V>)
    requires n <= |keys| && n <= |vals|
    ensures forall j :: 0 <= j < n ==> keys[j] in r
    ensures forall t :: t in r ==> exists j :: 0 <= j < n && keys[j] == t
  {
    if n == 0 then map[] else ZipPrefix(keys, vals, n - 1)[keys[n - 1] := vals[n - 1]]
  }

  /** `dict(zip(keys, vals))`: the keys paired with values, up to the shorter
      list; texts past the end of `vals` get no entry. */
  function ZipMap<V>(keys: seq<string>, vals: seq<V>): (r: map<string, V>)
    ensures forall j :: 0 <= j < |keys| && j < |vals| ==> keys[j] in r
    ensures forall t :: t in r ==> exists j :: 0 <= j < |keys| && j < |vals| && keys[j] == t
  {
    ZipPrefix(keys, vals, if |keys| < |vals| then |keys| else |vals|)
  }

  /** The pairs are inserted in order, so a key that occurs more than once
      keeps the value paired with its last occurrence. */
  lemma {:induction false} ZipLastWins<V>(keys: seq<string>, vals: seq<V>, n: nat, j: nat)
    requires j < n <= |keys| && n <= |vals|
    requires forall i :: j < i < n ==> keys[i] != keys[j]
    ensures ZipPrefix(keys, vals, n)[keys[j]] == vals[j]
    decreases n
  {
    if j < n - 1 {
      ZipLastWins(keys, vals, n - 1, j);
    }
  }

  /** The outcome of handling one target language. */
  datatype Step<V> = Step(table: map<Key, V>, ok: bool, values: map<string, V>)

  /** `translations_map`: the cached values, overridden by the fresh ones
      paired with the missed texts (`{**cached, **dict(zip(...))}`). */
  function MergedValues<V>(cached: map<string, V>, toTranslate: seq<Item>, answer: seq<V>): (r: map<string, V>)
    ensures forall t :: t in r ==> t in cached || t in ContentSet(toTranslate)
    ensures forall t :: t in cached && t !in ContentSet(toTranslate) ==> t in r && r[t] == cached[t]
    ensures |answer| >= |toTranslate| ==> forall j :: 0 <= j < |toTranslate| ==> toTranslate[j].content in r
  {
    var keys := Contents(toTranslate);
    assert forall j :: 0 <= j < |keys| ==> keys[j] in ContentSet(toTranslate);
    cached + ZipMap(Contents(toTranslate), answer)
  }

  /** One pass of the loop over `lang_configs`: look up the cache, translate
      the misses (only when there are any) and save them, and merge the cached
      and fresh values by text, fresh ones taking precedence. A translator
      that raises, or that answers with fewer values than items (which makes
      `bulk_save_translations` raise before it writes), fails the step. */
  function LanguageStep<V>(table: map<Key, V>, data: seq<Item>, lang: string, translate: seq<Item> -> Option<seq<V>>): (r: Step<V>)
    ensures var toTranslate := Uncached(data, GetCachedTranslations(table, data, lang));
      r.ok <==> |toTranslate| == 0 || (translate(toTranslate).Some? && |translate(toTranslate).value| >= |toTranslate|)
    ensures !r.ok ==> r.table == table && r.values == map[]
    ensures |data| > 0 && r.table != table ==> r.ok
  {
    var cached := GetCachedTranslations(table, data, lang);
    var toTranslate := Uncached(data, cached);
    if |toTranslate| == 0 then Step(table, true, cached)
    else match translate(toTranslate)
      case None => Step(table, false, map[])
      case Some(answer) =>
        if |answer| < |toTranslate| then Step(table, false, map[])
        else Step(BulkSaved(table, toTranslate, answer, lang), true, MergedValues(cached, toTranslate, answer))
  }

  /** A step keeps every row already in the table and adds rows only for its
      own target language. */
  lemma StepKeepsRows<V>(table: map<Key, V>, data: seq<Item>, lang: string, translate: seq<Item> -> Option<seq<V>>)
    ensures var s := LanguageStep(table, data, lang, translate);
      && (forall k :: k in table ==> k in s.table && s.table[k] == table[k])
      && (forall k :: k in s.table && k !in table ==> k.targetLang == lang)
  {
  }

  /** With no misses, `{**cached, **dict(zip([], []))}` is the cached dict. */
  lemma MergeWithoutMisses<V>(cached: map<string, V>)
    ensures MergedValues(cached, [], []) == cached
  {
    var none: seq<V> := [];
    assert ZipMap([], none) == map[];
  }

  /** When the cache already holds every text of the request for `lang`, the
      translator is not called, nothing is saved, and the cached values are the
      answer. */
  lemma FullyCachedStep<V>(table: map<Key, V>, data: seq<Item>, lang: string, translate: seq<Item> -> Option<seq<V>>)
    requires |data| > 0
    requires forall i :: 0 <= i < |data| ==> Key(data[i].content, data[0].lang, lang) in table
    ensures LanguageStep(table, data, lang, translate) == Step(table, true, GetCachedTranslations(table, data, lang))
  {
    var cached := GetCachedTranslations(table, data, lang);
    forall i | 0 <= i < |data| ensures data[i].content in cached {
      assert data[i].content in ContentSet(data);
    }
  }

  /** After a successful step the text of item i has a value. */
  lemma StepCoversItem<V>(table: map<Key, V>, data: seq<Item>, lang: string, translate: seq<Item> -> Option<seq<V>>, i: nat)
    requires i < |data|
    ensures var s := LanguageStep(table, data, lang, translate);
      s.ok ==> data[i].content in s.values
  {
    var s := LanguageStep(table, data, lang, translate);
    var cached := GetCachedTranslations(table, data, lang);
    var toTranslate := Uncached(data, cached);
    if s.ok && data[i].content !in cached {
      assert data[i] in toTranslate;
      assert s.values == MergedValues(cached, toTranslate, translate(toTranslate).value);
    }
  }

  /** After a successful step every text of the request has a value. */
  lemma StepCoversRequest<V>(table: map<Key, V>, data: seq<Item>, lang: string, translate: seq<Item> -> Option<seq<V>>)
    ensures var s := LanguageStep(table, data, lang, translate);
      s.ok ==> forall i :: 0 <= i < |data| ==> data[i].content in s.values
  {
    forall i | 0 <= i < |data| {
      StepCoversItem(table, data, lang, translate, i);
    }
  }

  /** After a successful step a text the lookup found keeps its cached value:
      no missed item has that text. */
  lemma StepKeepsCached<V>(table: map<Key, V>, data: seq<Item>, lang: string, translate: seq<Item> -> Option<seq<V>>)
    ensures var s := LanguageStep(table, data, lang, translate);
      var cached := GetCachedTranslations(table, data, lang);
      s.ok ==> forall t :: t in cached ==> t in s.values && s.values[t] == cached[t]
  {
    var s := LanguageStep(table, data, lang, translate);
    var cached := GetCachedTranslations(table, data, lang);
    var toTranslate := Uncached(data, cached);
    if s.ok && |toTranslate| > 0 {
      var answer := translate(toTranslate).value;
      var keys := Contents(toTranslate);
      assert s.values == cached + ZipMap(keys, answer);
      forall j | 0 <= j < |keys| ensures keys[j] !in cached {
        assert keys[j] == toTranslate[j].content;
      }
    }
  }

  /** In the merge, a missed text whose occurrence j is its last among the
      missed items gets answer j. */
  lemma FreshValueWins<V>(cached: map<string, V>, toTranslate: seq<Item>, answer: seq<V>, j: nat)
    requires j < |toTranslate| <= |answer|
    requires forall i :: j < i < |toTranslate| ==> toTranslate[i].content != toTranslate[j].content
    ensures Get(MergedValues(cached, toTranslate, answer), toTranslate[j].content) == Some(answer[j])
  {
    var keys := Contents(toTranslate);
    ZipLastWins(keys, answer, |keys|, j);
  }

  /** After a successful step a missed text gets the value paired with its
      LAST occurrence among the missed items (later pairs overwrite earlier
      ones in `dict(zip(...))`). */
  lemma StepFreshLastWins<V>(table: map<Key, V>, data: seq<Item>, lang: string, translate: seq<Item> -> Option<seq<V>>, j: nat)
    requires var toTranslate := Uncached(data, GetCachedTranslations(table, data, lang));
      && j < |toTranslate|
      && forall i :: j < i < |toTranslate| ==> toTranslate[i].content != toTranslate[j].content
    ensures var s := LanguageStep(table, data, lang, translate);
      var toTranslate := Uncached(data, GetCachedTranslations(table, data, lang));
      var answer := translate(toTranslate);
      s.ok ==> answer.Some? && j < |answer.value| && Get(s.values, toTranslate[j].content) == Some(answer.value[j])
  {
    var s := LanguageStep(table, data, lang, translate);
    var cached := GetCachedTranslations(table, data, lang);
    var toTranslate := Uncached(data, cached);
    if s.ok {
      assert translate(toTranslate).Some?;
      FreshValueWins(cached, toTranslate, translate(toTranslate).value, j);
    }
  }

  /** When every item of the request is written in the same language, a
      successful step leaves every text of the request in the cache for `lang`,
      so the same request finds them all next time. */
  lemma StepCachesEveryText<V>(table: map<Key, V>, data: seq<Item>, lang: string, translate: seq<Item> -> Option<seq<V>>)
    requires |data| > 0
    requires forall i :: 0 <= i < |data| ==> data[i].lang == data[0].lang
    ensures var s := LanguageStep(table, data, lang, translate);
      s.ok ==> GetCachedTranslations(s.table, data, lang).Keys == ContentSet(data)
  {
    var s := LanguageStep(table, data, lang, translate);
    var toTranslate := Uncached(data, GetCachedTranslations(table, data, lang));
    StepKeepsRows(table, data, lang, translate);
    if s.ok {
      if |toTranslate| > 0 {
        var answer := translate(toTranslate).value;
        assert s.table == BulkSaved(table, toTranslate, answer, lang);
        assert forall j :: 0 <= j < |toTranslate| ==> Key(toTranslate[j].content, toTranslate[0].lang, lang) in s.table;
      }
      MissesSavedCoverRequest(table, data, lang, toTranslate, s.table);
      LookupFindsAll(s.table, data, lang);
    }
  }

  /** If a table keeps every row of `table` and holds a row for each missed
      item under the first missed item's language, then for a single-language
      request it holds a row for every text of the request. */
  lemma MissesSavedCoverRequest<V>(table: map<Key, V>, data: seq<Item>, lang: string, toTranslate: seq<Item>, saved: map<Key, V>)
    requires |data| > 0
    requires forall i :: 0 <= i < |data| ==> data[i].lang == data[0].lang
    requires toTranslate == Uncached(data, GetCachedTranslations(table, data, lang))
    requires forall k :: k in table ==> k in saved
    requires forall j :: 0 <= j < |toTranslate| ==> Key(toTranslate[j].content, toTranslate[0].lang, lang) in saved
    ensures forall t :: t in ContentSet(data) ==> Key(t, data[0].lang, lang) in saved
  {
    var cached := GetCachedTranslations(table, data, lang);
    if |toTranslate| > 0 {
      assert toTranslate[0] in data;
    }
    forall i | 0 <= i < |data| ensures Key(data[i].content, data[0].lang, lang) in saved {
      if data[i].content !in cached {
        var k :| 0 <= k < |toTranslate| && toTranslate[k] == data[i];
      }
    }
  }

  /** The request lookup uses the first item's language and the save uses the
      first missed item's language: when the two differ, the rows a step saves
      are invisible to the same request's lookup, which finds exactly what it
      found before, so its misses are sent to the translator again. */
  lemma MixedLanguagesMissAgain<V>(table: map<Key, V>, data: seq<Item>, lang: string, translate: seq<Item> -> Option<seq<V>>)
    requires |data| > 0
    ensures var s := LanguageStep(table, data, lang, translate);
      var toTranslate := Uncached(data, GetCachedTranslations(table, data, lang));
      s.ok && |toTranslate| > 0 && toTranslate[0].lang != data[0].lang ==>
        GetCachedTranslations(s.table, data, lang) == GetCachedTranslations(table, data, lang)
  {
    var s := LanguageStep(table, data, lang, translate);
    var cached := GetCachedTranslations(table, data, lang);
    var toTranslate := Uncached(data, cached);
    if s.ok && |toTranslate| > 0 && toTranslate[0].lang != data[0].lang {
      assert s.table == BulkSaved(table, toTranslate, translate(toTranslate).value, lang);
      LookupIgnoresOtherSource(table, s.table, data, lang);
    }
  }

  /** An instance of the above: the request ["a" in zh, "b" in en] with "a"
      cached saves "b" under source language en, while the same request's
      lookup for en reads rows under zh and does not find it. */
  lemma MixedLanguagesExample()
    ensures var data := [Item("a", "zh"), Item("b", "en")];
      var table := map[Key("a", "zh", "en") := "A"];
      var s := LanguageStep(table, data, "en", (items: seq<Item>) => Some(["B"]));
      s.ok && "b" !in GetCachedTranslations(s.table, data, "en")
  {
    var data := [Item("a", "zh"), Item("b", "en")];
    var table := map[Key("a", "zh", "en") := "A"];
    var translate := (items: seq<Item>) => Some(["B"]);
    var cached := GetCachedTranslations(table, data, "en");
    assert "a" in ContentSet(data);
    assert Key("b", "zh", "en") !in table;
    assert data == [data[0]] + [data[1]];
    UncachedAppend([data[0]], [data[1]], cached);
    assert Uncached(data, cached) == [Item("b", "en")];
    MixedLanguagesMissAgain(table, data, "en", translate);
  }

  /** A step depends only on the table's rows for its own language. */
  lemma StepReadsOnlyItsLanguage<V(!new)>(t1: map<Key, V>, t2: map<Key, V>, data: seq<Item>, lang: string,
                                    translate: seq<Item> -> Option<seq<V>>)
    requires RowsFor(t1, lang) == RowsFor(t2, lang)
    ensures LanguageStep(t1, data, lang, translate).ok == LanguageStep(t2, data, lang, translate).ok
    ensures LanguageStep(t1, data, lang, translate).values == LanguageStep(t2, data, lang, translate).values
  {
    LookupReadsOnlyItsTarget(t1, t2, data, lang);
  }

  /** A step for `lang` leaves the rows of every other language as they were. */
  lemma StepLeavesOtherLanguage<V>(table: map<Key, V>, data: seq<Item>, lang: string,
                                   translate: seq<Item> -> Option<seq<V>>, l: string)
    requires l != lang
    ensures RowsFor(LanguageStep(table, data, lang, translate).table, l) == RowsFor(table, l)
  {
    StepKeepsRows(table, data, lang, translate);
    RowsForOtherTarget(table, LanguageStep(table, data, lang, translate).table, l);
  }

  /** The steps of one request, as a function of the table and the target language. */
  type StepFn<!V> = (map<Key, V>, string) -> Step<V>

  function StepsOf<V>(data: seq<Item>, translate: seq<Item> -> Option<seq<V>>): StepFn<V> {
    (table: map<Key, V>, lang: string) => LanguageStep(table, data, lang, translate)
  }

  /** Every row of `before` is in `after` with the same value, and every added
      row is for target language `lang`. */
  ghost predicate GrowsFor<V>(before: map<Key, V>, after: map<Key, V>, lang: string) {
    && (forall k :: k in before ==> k in after && after[k] == before[k])
    && (forall k :: k in after && k !in before ==> k.targetLang == lang)
  }

  /** A step keeps the table's rows and adds rows only for its own language. */
  ghost predicate KeepsRows<V(!new)>(step: StepFn<V>) {
    forall table, lang :: GrowsFor(table, step(table, lang).table, lang)
  }

  /** A step leaves the rows of every other language as they were. */
  ghost predicate WritesOnlyItsLanguage<V(!new)>(step: StepFn<V>) {
    forall table, lang, l :: l != lang ==> RowsFor(step(table, lang).table, l) == RowsFor(table, l)
  }

  /** Whether a step succeeds, and the values it merges, depend only on the
      table's rows for the step's own language. */
  ghost predicate ReadsOnlyItsLanguage<V(!new)>(step: StepFn<V>) {
    forall t1, t2, lang :: RowsFor(t1, lang) == RowsFor(t2, lang) ==>
      step(t1, lang).ok == step(t2, lang).ok && step(t1, lang).values == step(t2, lang).values
  }

  /** The steps of `translate_texts` have all three properties. */
  lemma StepsAreLocal<V(!new)>(data: seq<Item>, translate: seq<Item> -> Option<seq<V>>)
    ensures KeepsRows(StepsOf(data, translate))
    ensures WritesOnlyItsLanguage(StepsOf(data, translate))
    ensures ReadsOnlyItsLanguage(StepsOf(data, translate))
  {
    var step := StepsOf(data, translate);
    forall table, lang ensures GrowsFor(table, step(table, lang).table, lang) {
      StepKeepsRows(table, data, lang, translate);
    }
    forall table, lang, l | l != lang ensures RowsFor(step(table, lang).table, l) == RowsFor(table, l) {
      StepLeavesOtherLanguage(table, data, lang, translate, l);
    }
    forall t1, t2, lang | RowsFor(t1, lang) == RowsFor(t2, lang)
      ensures step(t1, lang).ok == step(t2, lang).ok && step(t1, lang).values == step(t2, lang).values
    {
      StepReadsOnlyItsLanguage(t1, t2, data, lang, translate);
    }
  }

  /** The body of the handler's loop for one target language, against a
      store: look the request up, send the misses to the translator, save the
      answers and merge them over the cached values. `ok` is false where the
      translator raises or the save raises IndexError. */
  method RunStep<V>(store: TranslationStore<V>, data: seq<Item>, lang: string, translate: seq<Item> -> Option<seq<V>>)
    returns (ok: bool, values: map<string, V>)
    modifies store
    ensures Step(store.rows, ok, values) == LanguageStep(old(store.rows), data, lang, translate)
  {
    var cached := GetCachedTranslations(store.rows, data, lang);
    var toTranslate := Uncached(data, cached);
    var newTranslations: seq<V> := [];
    if |toTranslate| > 0 {
      var answer := translate(toTranslate);
      if answer.None? {
        return false, map[];
      }
      newTranslations := answer.value;
      var saved := store.BulkSaveTranslations(toTranslate, newTranslations, lang);
      if !saved {
        return false, map[];
      }
    } else {
      MergeWithoutMisses(cached);
    }
    ok := true;
    values := cached + ZipMap(Contents(toTranslate), newTranslations);
  }
}
