/** The `/translate` request handler: for each of the seven target languages
    it runs one step (look the request up in the cache, translate and save the
    misses, merge the values), and it builds one record per distinct text. */
module Service {
  import opened Models
  import opened Crud
  import opened LanguageSteps

  /** One record of the response: the text under `key` and `zh`, and for each
      target language the value found for it, or None. */
  datatype TranslationRecord<V> = TranslationRecord(key: string, zh: string, langs: map<string, Option<V>>)

  /** The language fields of the records being built, by text. */
  type Fields<V> = map<string, map<string, Option<V>>>

  /** The distinct texts of a request in first-occurrence order: the keys of
      the `results` dict in insertion order. */
  function DistinctContents(data: seq<Item>): (r: seq<string>)
    ensures Distinct(r)
    ensures forall k :: 0 <= k < |r| ==> r[k] in ContentSet(data)
    ensures forall i :: 0 <= i < |data| ==> data[i].content in r
    decreases |data|
  {
    if |data| == 0 then []
    else
      var prefix := DistinctContents(data[..|data| - 1]);
      var c := data[|data| - 1].content;
      assert forall i :: 0 <= i < |data| - 1 ==> data[i] == data[..|data| - 1][i];
      assert ContentSet(data[..|data| - 1]) <= ContentSet(data);
      if c in prefix then prefix else prefix + [c]
  }

  /** Some item before position `before` has text c. */
  predicate OccursBefore(data: seq<Item>, c: string, before: int) {
    exists i :: 0 <= i < before && i < |data| && data[i].content == c
  }

  /** The records follow the order of first occurrence: every occurrence of a
      later record's text comes after some occurrence of an earlier one's. */
  lemma {:induction false} FirstOccurrenceOrder(data: seq<Item>, k1: nat, k2: nat, i: nat)
    requires k1 < k2 < |DistinctContents(data)| && i < |data|
    requires data[i].content == DistinctContents(data)[k2]
    ensures OccursBefore(data, DistinctContents(data)[k1], i)
    decreases |data|
  {
    var n := |data| - 1;
    var front := data[..n];
    var prefix := DistinctContents(front);
    var r := DistinctContents(data);
    assert r == prefix || r == prefix + [data[n].content];
    assert r[k1] == prefix[k1];
    assert prefix[k1] in ContentSet(front);
    var j1 :| 0 <= j1 < n && front[j1].content == prefix[k1];
    if i < n {
      if k2 < |prefix| {
        assert front[i].content == prefix[k2];
        FirstOccurrenceOrder(front, k1, k2, i);
        var i0 :| 0 <= i0 < i && i0 < |front| && front[i0].content == prefix[k1];
        assert data[i0].content == r[k1];
      }
    } else {
      assert data[j1].content == r[k1];
    }
  }

  /** Set the field `lang` of every record from the merged values
      (`data[target_lang] = translations_map.get(content)`). */
  function Merged<V>(fields: Fields<V>, lang: string, values: map<string, V>): (r: Fields<V>)
    ensures r.Keys == fields.Keys
    ensures forall c :: c in fields ==> r[c].Keys == fields[c].Keys + {lang} && r[c][lang] == Get(values, c)
    ensures forall c, l :: c in fields && l in fields[c] && l != lang ==> r[c][l] == fields[c][l]
  {
    map c | c in fields :: fields[c][lang := Get(values, c)]
  }

  /** The state after handling some of the target languages: the table, whether
      a step raised, and the record fields so far. */
  datatype Progress<V> = Progress(table: map<Key, V>, failed: bool, fields: Fields<V>)

  /** The loop over the target languages `langs`, from a table and the record
      fields built so far, running `step` for each; the first failing step
      ends it. */
  function Handled<V>(table: map<Key, V>, fields: Fields<V>, langs: seq<string>, step: StepFn<V>): (p: Progress<V>)
    ensures p.fields.Keys == fields.Keys
    ensures p.failed ==> |langs| > 0
    ensures !p.failed ==> forall c :: c in fields ==> p.fields[c].Keys == fields[c].Keys + (set l | l in langs)
    decreases |langs|
  {
    if |langs| == 0 then Progress(table, false, fields)
    else
      var s := step(table, langs[0]);
      if !s.ok then Progress(s.table, true, fields)
      else Handled(s.table, Merged(fields, langs[0], s.values), langs[1..], step)
  }

  /** The loop keeps every row already in the table, whether or not a step
      fails, and adds rows only for the languages it visits. */
  lemma {:induction false} HandledKeepsRows<V(!new)>(table: map<Key, V>, fields: Fields<V>, langs: seq<string>, step: StepFn<V>)
    requires KeepsRows(step)
    ensures var p := Handled(table, fields, langs, step);
      && (forall k :: k in table ==> k in p.table && p.table[k] == table[k])
      && (forall k :: k in p.table && k !in table ==> k.targetLang in langs)
    decreases |langs|
  {
    if |langs| > 0 {
      var s := step(table, langs[0]);
      assert GrowsFor(table, s.table, langs[0]);
      if s.ok {
        HandledKeepsRows(s.table, Merged(fields, langs[0], s.values), langs[1..], step);
        assert forall l :: l in langs[1..] ==> l in langs;
      }
    }
  }

  /** The loop gives record c a field for each language it visits and leaves
      its other fields as they were. */
  lemma {:induction false} HandledField<V>(table: map<Key, V>, fields: Fields<V>, langs: seq<string>, step: StepFn<V>,
                                           c: string, l: string)
    requires c in fields
    ensures var p := Handled(table, fields, langs, step);
      && (!p.failed ==> (l in p.fields[c] <==> l in fields[c] || l in langs))
      && (!p.failed && l !in langs && l in fields[c] ==> p.fields[c][l] == fields[c][l])
    decreases |langs|
  {
    if |langs| > 0 {
      var lang := langs[0];
      var s := step(table, lang);
      if s.ok {
        var next := Merged(fields, lang, s.values);
        assert next[c] == fields[c][lang := Get(s.values, c)];
        HandledField(s.table, next, langs[1..], step, c, l);
        assert l in langs <==> l == lang || l in langs[1..];
      }
    }
  }

  /** Handling the languages one after another gives each language the outcome
      its step has on the table before the loop: the steps do not see each
      other, because each writes only rows for its own language. */
  lemma {:induction false} HandledFollowsSteps<V(!new)>(table0: map<Key, V>, table: map<Key, V>, fields: Fields<V>,
                                                  langs: seq<string>, step: StepFn<V>)
    requires ReadsOnlyItsLanguage(step) && WritesOnlyItsLanguage(step)
    requires Distinct(langs)
    requires forall l :: l in langs ==> RowsFor(table0, l) == RowsFor(table, l)
    ensures var p := Handled(table, fields, langs, step);
      !p.failed <==> forall l :: l in langs ==> step(table0, l).ok
    decreases |langs|
  {
    if |langs| > 0 {
      var lang := langs[0];
      var rest := langs[1..];
      var s := step(table, lang);
      assert step(table0, lang).ok == s.ok;
      if s.ok {
        forall l | l in rest ensures RowsFor(table0, l) == RowsFor(s.table, l) {
          assert l in langs && l != lang;
          assert RowsFor(s.table, l) == RowsFor(table, l);
        }
        HandledFollowsSteps(table0, s.table, Merged(fields, lang, s.values), rest, step);
        assert forall l :: l in langs ==> l == lang || l in rest;
      }
    }
  }

  /** On success, record c's field for the first language visited holds the
      value merged by that language's step; later steps leave it alone. */
  lemma HandledFirstValue<V>(table: map<Key, V>, fields: Fields<V>, langs: seq<string>, step: StepFn<V>, c: string)
    requires |langs| > 0 && langs[0] !in langs[1..] && c in fields
    ensures var p := Handled(table, fields, langs, step);
      !p.failed ==> langs[0] in p.fields[c] && p.fields[c][langs[0]] == Get(step(table, langs[0]).values, c)
  {
    var s := step(table, langs[0]);
    if s.ok {
      var next := Merged(fields, langs[0], s.values);
      assert next[c] == fields[c][langs[0] := Get(s.values, c)];
      HandledField(s.table, next, langs[1..], step, c, langs[0]);
    }
  }

  /** On success, record c's field for each visited language l holds the
      value that language's step merges on the table before the loop. */
  lemma {:induction false} HandledValue<V(!new)>(table0: map<Key, V>, table: map<Key, V>, fields: Fields<V>,
                                           langs: seq<string>, step: StepFn<V>, c: string, l: string)
    requires ReadsOnlyItsLanguage(step) && WritesOnlyItsLanguage(step)
    requires Distinct(langs)
    requires forall l :: l in langs ==> RowsFor(table0, l) == RowsFor(table, l)
    requires c in fields && l in langs
    ensures var p := Handled(table, fields, langs, step);
      !p.failed ==> l in p.fields[c] && p.fields[c][l] == Get(step(table0, l).values, c)
    decreases |langs|
  {
    var lang := langs[0];
    var rest := langs[1..];
    if l == lang {
      assert step(table0, lang).values == step(table, lang).values;
      HandledFirstValue(table, fields, langs, step, c);
    } else {
      var s := step(table, lang);
      if s.ok {
        forall l' | l' in rest ensures RowsFor(table0, l') == RowsFor(s.table, l') {
          assert l' in langs && l' != lang;
          assert RowsFor(s.table, l') == RowsFor(table, l');
        }
        assert l in rest;
        HandledValue(table0, s.table, Merged(fields, lang, s.values), rest, step, c, l);
      }
    }
  }

  function InitialFields<V>(order: seq<string>): (r: Fields<V>)
    ensures r.Keys == set c | c in order
    ensures forall c :: c in r ==> r[c] == map[]
  {
    map c | c in order :: map[]
  }

  /** The response records: one per text of `order`, built from its fields. */
  function Records<V>(order: seq<string>, fields: Fields<V>): (r: seq<TranslationRecord<V>>)
    requires forall c :: c in order ==> c in fields
    ensures |r| == |order|
    ensures forall k :: 0 <= k < |order| ==> r[k].key == order[k] && r[k].zh == order[k] && r[k].langs == fields[order[k]]
  {
    seq(|order|, k requires 0 <= k < |order| => TranslationRecord(order[k], order[k], fields[order[k]]))
  }

  /** The final table and the response of a request. */
  datatype Outcome<V> = Outcome(table: map<Key, V>, response: Option<seq<TranslationRecord<V>>>)

  /** What `translate_texts` does with a request, as a function of the table
      before the request and of the step it runs for each target language
      (`StepsOf(data, translate)` for the handler itself). */
  function Respond<V>(table: map<Key, V>, data: seq<Item>, step: StepFn<V>): (o: Outcome<V>)
    ensures |data| == 0 ==> o == Outcome(table, Some([]))
  {
    if |data| == 0 then Outcome(table, Some([]))
    else
      var order := DistinctContents(data);
      var p := Handled(table, InitialFields(order), TargetLangs, step);
      Outcome(p.table, if p.failed then None else Some(Records(order, p.fields)))
  }

  /** A request never removes or changes a stored row, even when it fails
      part way, and it writes only rows for the seven target languages. */
  lemma RespondKeepsRows<V(!new)>(table: map<Key, V>, data: seq<Item>, step: StepFn<V>)
    requires KeepsRows(step)
    ensures var o := Respond(table, data, step);
      && (forall k :: k in table ==> k in o.table && o.table[k] == table[k])
      && (forall k :: k in o.table && k !in table ==> k.targetLang in TargetLangs)
  {
    if |data| > 0 {
      HandledKeepsRows(table, InitialFields(DistinctContents(data)), TargetLangs, step);
    }
  }

  /** A request with texts succeeds exactly when no language's step fails on
      the table as it was before the request. */
  lemma RespondSucceedsIffEveryStepDoes<V(!new)>(table: map<Key, V>, data: seq<Item>, step: StepFn<V>)
    requires ReadsOnlyItsLanguage(step) && WritesOnlyItsLanguage(step)
    requires |data| > 0
    ensures Respond(table, data, step).response.Some? <==> forall l :: l in TargetLangs ==> step(table, l).ok
  {
    TargetLangsDistinct();
    HandledFollowsSteps(table, table, InitialFields(DistinctContents(data)), TargetLangs, step);
  }

  /** A successful response has one record per distinct text, in first-occurrence
      order, with key and zh equal to the text and a field for exactly the
      seven target languages. */
  lemma ResponseShape<V>(table: map<Key, V>, data: seq<Item>, step: StepFn<V>)
    requires |data| > 0
    ensures var out := Respond(table, data, step).response;
      var order := DistinctContents(data);
      out.Some? ==>
        && |out.value| == |order|
        && (forall k :: 0 <= k < |order| ==> out.value[k].key == order[k] && out.value[k].zh == order[k])
        && (forall k :: 0 <= k < |order| ==> out.value[k].langs.Keys == LangSet())
  {
    var order := DistinctContents(data);
    var p := Handled(table, InitialFields(order), TargetLangs, step);
    if !p.failed {
      FieldsForEveryLanguage(table, order, step);
      assert Respond(table, data, step).response == Some(Records(order, p.fields));
    }
  }

  /** Starting from empty fields, a loop over the seven languages that does not
      fail leaves each record a field for exactly those languages. */
  lemma FieldsForEveryLanguage<V>(table: map<Key, V>, order: seq<string>, step: StepFn<V>)
    ensures var p := Handled(table, InitialFields(order), TargetLangs, step);
      !p.failed ==> forall c :: c in order ==> c in p.fields && p.fields[c].Keys == LangSet()
  {
    var fields: Fields<V> := InitialFields(order);
    forall c | c in order ensures c in fields && fields[c].Keys == {} {
      assert fields[c] == map[];
    }
  }

  /** Record k built after handling `langs` from empty fields holds, for a
      visited language l, the value l's step merges on the starting table. */
  lemma RecordValue<V(!new)>(table: map<Key, V>, order: seq<string>, langs: seq<string>, step: StepFn<V>,
                             k: nat, l: string)
    requires ReadsOnlyItsLanguage(step) && WritesOnlyItsLanguage(step)
    requires Distinct(langs) && k < |order| && l in langs
    ensures var p := Handled(table, InitialFields(order), langs, step);
      !p.failed ==>
        var r := Records(order, p.fields)[k];
        l in r.langs && r.langs[l] == Get(step(table, l).values, order[k])
  {
    var fields: Fields<V> := InitialFields(order);
    var p := Handled(table, fields, langs, step);
    assert order[k] in fields;
    HandledValue(table, table, fields, langs, step, order[k], l);
    if !p.failed {
      assert order[k] in p.fields;
      assert Records(order, p.fields)[k].langs == p.fields[order[k]];
    }
  }

  /** In a successful response, the field for a language holds the value
      that language's step, run on the table before the request, merged for
      the record's text. */
  lemma ResponseValues<V(!new)>(table: map<Key, V>, data: seq<Item>, step: StepFn<V>, k: nat, l: string)
    requires ReadsOnlyItsLanguage(step) && WritesOnlyItsLanguage(step)
    requires k < |DistinctContents(data)| && l in TargetLangs
    ensures var out := Respond(table, data, step).response;
      out.Some? ==>
        k < |out.value| && l in out.value[k].langs
        && out.value[k].langs[l] == Get(step(table, l).values, DistinctContents(data)[k])
  {
    TargetLangsDistinct();
    RecordValue(table, DistinctContents(data), TargetLangs, step, k, l);
  }

  /** In a successful response of the handler no field is None: every text is
      either cached or translated for every language, since a short answer
      fails the request before the merge. */
  lemma ResponseComplete<V(!new)>(table: map<Key, V>, data: seq<Item>, translate: seq<Item> -> Option<seq<V>>,
                                  k: nat, l: string)
    requires l in TargetLangs
    ensures var out := Respond(table, data, StepsOf(data, translate)).response;
      out.Some? && k < |out.value| ==> l in out.value[k].langs && out.value[k].langs[l].Some?
  {
    var order := DistinctContents(data);
    if k < |order| {
      var step := StepsOf(data, translate);
      StepsAreLocal(data, translate);
      ResponseValues(table, data, step, k, l);
      RespondSucceedsIffEveryStepDoes(table, data, step);
      assert step(table, l) == LanguageStep(table, data, l, translate);
      assert order[k] in ContentSet(data);
      var i :| 0 <= i < |data| && data[i].content == order[k];
      StepCoversItem(table, data, l, translate, i);
    } else if |data| > 0 {
      ResponseShape(table, data, StepsOf(data, translate));
    }
  }

  /** The inner loop of the handler: visit the records in order and set the
      field `lang` of each from `values`. */
  method MergeFields<V>(fields: Fields<V>, order: seq<string>, lang: string, values: map<string, V>)
    returns (r: Fields<V>)
    requires Distinct(order)
    requires forall c :: c in fields <==> c in order
    ensures r == Merged(fields, lang, values)
  {
    r := fields;
    var i := 0;
    while i < |order|
      invariant 0 <= i <= |order|
      invariant r.Keys == fields.Keys
      invariant forall j :: 0 <= j < i ==> r[order[j]] == fields[order[j]][lang := Get(values, order[j])]
      invariant forall j :: i <= j < |order| ==> r[order[j]] == fields[order[j]]
    {
      var c := order[i];
      r := r[c := r[c][lang := Get(values, c)]];
      i := i + 1;
    }
    forall c | c in r ensures r[c] == Merged(fields, lang, values)[c] {
      var j :| 0 <= j < |order| && order[j] == c;
    }
  }

  /** `translate_texts` over a store. */
  method TranslateTexts<V(!new)>(store: TranslationStore<V>, data: seq<Item>, translate: seq<Item> -> Option<seq<V>>)
    returns (response: Option<seq<TranslationRecord<V>>>)
    modifies store
    ensures |data| == 0 ==> response == Some([]) && store.rows == old(store.rows)
    ensures response == Respond(old(store.rows), data, StepsOf(data, translate)).response
    ensures store.rows == Respond(old(store.rows), data, StepsOf(data, translate)).table
  {
    if |data| == 0 {
      return Some([]);
    }
    var order := DistinctContents(data);
    var fields: Fields<V> := InitialFields(order);
    ghost var step := StepsOf(data, translate);
    ghost var goal := Handled(store.rows, fields, TargetLangs, step);
    var langs := TargetLangs;
    while |langs| > 0
      invariant forall c :: c in fields <==> c in order
      invariant Handled(store.rows, fields, langs, step) == goal
    {
      var targetLang := langs[0];
      ghost var table := store.rows;
      var ok, translationsMap := RunStep(store, data, targetLang, translate);
      assert step(table, targetLang) == Step(store.rows, ok, translationsMap);
      if !ok {
        return None;
      }
      fields := MergeFields(fields, order, targetLang, translationsMap);
      langs := langs[1..];
    }
    response := Some(Records(order, fields));
  }
}
