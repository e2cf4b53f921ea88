/** The `translations` cache table and its two operations: a filtered batch
    read and a batch insert-or-ignore.

    The table is a map from the triple the schema declares UNIQUE
    (source text, source language, target language) to the translated value,
    so at most one row per triple exists by construction. The id and
    created_at columns are not modelled. */
module Crud {
  import opened Models

  datatype Key = Key(sourceText: string, sourceLang: string, targetLang: string)

  /** One row of the batch handed to `executemany`. */
  datatype Row<V> = Row(key: Key, translated: V)

  /** The texts an item list asks for (the `IN (...)` list of the lookup). */
  function ContentSet(items: seq<Item>): set<string> {
    set i | 0 <= i < |items| :: items[i].content
  }

  /** `get_cached_translations`: the stored rows whose source text is one of the
      requested contents, whose source language is the FIRST item's language
      and whose target language is `targetLang`, keyed by source text.
      Reading the table leaves it unchanged (this is a function of it). */
  function GetCachedTranslations<V>(table: map<Key, V>, items: seq<Item>, targetLang: string): (r: map<string, V>)
    ensures |items| == 0 ==> r == map[]
    ensures |items| > 0 ==> forall t :: t in r ==>
      (exists i :: 0 <= i < |items| && items[i].content == t)
      && Key(t, items[0].lang, targetLang) in table
      && r[t] == table[Key(t, items[0].lang, targetLang)]
    ensures |items| > 0 ==> forall k ::
      (k in table && k.sourceLang == items[0].lang && k.targetLang == targetLang && k.sourceText in ContentSet(items))
      ==> k.sourceText in r && r[k.sourceText] == table[k]
  {
    if |items| == 0 then map[]
    else
      var source := items[0].lang;
      map t | t in ContentSet(items) && Key(t, source, targetLang) in table :: table[Key(t, source, targetLang)]
  }

  /** The rows of a table for target language `targetLang`. */
  function RowsFor<V>(table: map<Key, V>, targetLang: string): map<Key, V> {
    map k | k in table && k.targetLang == targetLang :: table[k]
  }

  /** The lookup for `targetLang` reads only the rows for `targetLang`. */
  lemma LookupReadsOnlyItsTarget<V>(t1: map<Key, V>, t2: map<Key, V>, items: seq<Item>, targetLang: string)
    requires RowsFor(t1, targetLang) == RowsFor(t2, targetLang)
    ensures GetCachedTranslations(t1, items, targetLang) == GetCachedTranslations(t2, items, targetLang)
  {
    var m1 := GetCachedTranslations(t1, items, targetLang);
    var m2 := GetCachedTranslations(t2, items, targetLang);
    var rows := RowsFor(t1, targetLang);
    if |items| > 0 {
      forall t | t in m1 ensures t in m2 && m2[t] == m1[t] {
        var k := Key(t, items[0].lang, targetLang);
        assert k in rows && rows[k] == t1[k] && rows[k] == t2[k];
        assert t in ContentSet(items);
      }
      forall t | t in m2 ensures t in m1 {
        var k := Key(t, items[0].lang, targetLang);
        assert k in rows;
        assert t in ContentSet(items);
      }
      assert m1.Keys == m2.Keys;
    }
  }

  /** Rows added to a table under another source language than the first
      item's are invisible to the lookup: it returns what it returned before. */
  lemma LookupIgnoresOtherSource<V>(before: map<Key, V>, after: map<Key, V>, items: seq<Item>, targetLang: string)
    requires |items| > 0
    requires forall k :: k in before ==> k in after && after[k] == before[k]
    requires forall k :: k in after && k !in before ==> k.sourceLang != items[0].lang
    ensures GetCachedTranslations(after, items, targetLang) == GetCachedTranslations(before, items, targetLang)
  {
    var m1 := GetCachedTranslations(after, items, targetLang);
    var m2 := GetCachedTranslations(before, items, targetLang);
    forall t | t in m1 ensures t in m2 && m2[t] == m1[t] {
      assert t in ContentSet(items);
    }
    forall t | t in m2 ensures t in m1 {
      assert t in ContentSet(items);
    }
    assert m1.Keys == m2.Keys;
  }

  /** When the table holds a row for every requested text under the first
      item's language, the lookup returns every requested text. */
  lemma LookupFindsAll<V>(table: map<Key, V>, items: seq<Item>, targetLang: string)
    requires |items| > 0
    requires forall t :: t in ContentSet(items) ==> Key(t, items[0].lang, targetLang) in table
    ensures GetCachedTranslations(table, items, targetLang).Keys == ContentSet(items)
  {
    var r := GetCachedTranslations(table, items, targetLang);
    forall t | t in r ensures t in ContentSet(items) {
      var i :| 0 <= i < |items| && items[i].content == t;
    }
  }

  /** Rows added to a table for other target languages than l leave the rows
      for l as they were. */
  lemma RowsForOtherTarget<V>(before: map<Key, V>, after: map<Key, V>, l: string)
    requires forall k :: k in before ==> k in after && after[k] == before[k]
    requires forall k :: k in after && k !in before ==> k.targetLang != l
    ensures RowsFor(after, l) == RowsFor(before, l)
  {
    var r1, r2 := RowsFor(after, l), RowsFor(before, l);
    forall k | k in r1 ensures k in r2 && r2[k] == r1[k] {
      assert k in after && k.targetLang == l;
    }
    forall k | k in r2 ensures k in r1 {
      assert k in before;
    }
    assert r1.Keys == r2.Keys;
  }

  /** The rows `bulk_save_translations` builds: item i paired with translation i,
      every row under the first item's language. */
  function SaveRows<V>(items: seq<Item>, translations: seq<V>, targetLang: string): (r: seq<Row<V>>)
    requires |items| > 0 && |translations| >= |items|
    ensures |r| == |items|
    ensures forall i :: 0 <= i < |items| ==>
      r[i] == Row(Key(items[i].content, items[0].lang, targetLang), translations[i])
  {
    seq(|items|, i requires 0 <= i < |items| => Row(Key(items[i].content, items[0].lang, targetLang), translations[i]))
  }

  function RowKeys<V>(rows: seq<Row<V>>): set<Key> {
    set j | 0 <= j < |rows| :: rows[j].key
  }

  /** Row j is the first row of the batch with its key. */
  predicate FirstWithKey<V>(rows: seq<Row<V>>, j: nat)
    requires j < |rows|
  {
    forall i :: 0 <= i < j ==> rows[i].key != rows[j].key
  }

  /** `INSERT OR IGNORE` of each row in turn: a key already present keeps its
      value, so the table only grows, and within the batch the first row with
      a new key is the one stored. */
  function InsertOrIgnore<V>(table: map<Key, V>, rows: seq<Row<V>>): (r: map<Key, V>)
    ensures r.Keys == table.Keys + RowKeys(rows)
    ensures forall k :: k in table ==> r[k] == table[k]
    ensures forall j :: 0 <= j < |rows| && rows[j].key !in table && FirstWithKey(rows, j) ==>
      r[rows[j].key] == rows[j].translated
    decreases |rows|
  {
    if |rows| == 0 then table
    else
      var row := rows[0];
      var next := if row.key in table then table else table[row.key := row.translated];
      var r := InsertOrIgnore(next, rows[1..]);
      assert RowKeys(rows) == {row.key} + RowKeys(rows[1..]) by {
        forall k | k in RowKeys(rows) ensures k in {row.key} + RowKeys(rows[1..]) {
          var j :| 0 <= j < |rows| && rows[j].key == k;
          if j > 0 { assert rows[1..][j - 1].key == k; }
        }
      }
      assert forall j :: 1 <= j < |rows| && rows[j].key !in table && FirstWithKey(rows, j) ==>
        rows[1..][j - 1].key !in next && FirstWithKey(rows[1..], j - 1);
      r
  }

  /** The table after a successful `bulk_save_translations(items, translations, targetLang)`. */
  function BulkSaved<V>(table: map<Key, V>, items: seq<Item>, translations: seq<V>, targetLang: string): (r: map<Key, V>)
    requires |items| == 0 || |translations| >= |items|
    ensures |items| == 0 ==> r == table
    ensures forall i :: 0 <= i < |items| ==> Key(items[i].content, items[0].lang, targetLang) in r
    ensures forall k :: k in table ==> k in r && r[k] == table[k]
    ensures forall k :: k in r && k !in table ==>
      k.sourceLang == items[0].lang && k.targetLang == targetLang && k.sourceText in ContentSet(items)
  {
    if |items| == 0 then table
    else
      var rows := SaveRows(items, translations, targetLang);
      assert forall i :: 0 <= i < |items| ==> rows[i].key in RowKeys(rows);
      InsertOrIgnore(table, rows)
  }

  /** Inserting-or-ignoring rows whose keys are all present changes nothing. */
  lemma {:induction false} InsertPresentIsNoOp<V>(table: map<Key, V>, rows: seq<Row<V>>)
    requires RowKeys(rows) <= table.Keys
    ensures InsertOrIgnore(table, rows) == table
    decreases |rows|
  {
    if |rows| > 0 {
      assert rows[0].key in RowKeys(rows);
      assert RowKeys(rows[1..]) <= RowKeys(rows) by {
        forall k | k in RowKeys(rows[1..]) ensures k in RowKeys(rows) {
          var j :| 0 <= j < |rows[1..]| && rows[1..][j].key == k;
          assert rows[j + 1].key == k;
        }
      }
      InsertPresentIsNoOp(table, rows[1..]);
    }
  }

  /** Saving the same batch twice leaves the same table as saving it once. */
  lemma BulkSaveIdempotent<V>(table: map<Key, V>, items: seq<Item>, translations: seq<V>, targetLang: string)
    requires |items| == 0 || |translations| >= |items|
    ensures var once := BulkSaved(table, items, translations, targetLang);
      BulkSaved(once, items, translations, targetLang) == once
  {
    if |items| > 0 {
      var rows := SaveRows(items, translations, targetLang);
      InsertPresentIsNoOp(InsertOrIgnore(table, rows), rows);
    }
  }

  /** Within one batch the first item with a given content decides the stored
      value, unless the key was already present. */
  lemma FirstInBatchWins<V>(table: map<Key, V>, items: seq<Item>, translations: seq<V>, targetLang: string, j: nat)
    requires |translations| >= |items| && j < |items|
    requires Key(items[j].content, items[0].lang, targetLang) !in table
    requires forall i :: 0 <= i < j ==> items[i].content != items[j].content
    ensures BulkSaved(table, items, translations, targetLang)[Key(items[j].content, items[0].lang, targetLang)]
      == translations[j]
  {
    var rows := SaveRows(items, translations, targetLang);
    assert FirstWithKey(rows, j);
  }

  /** A save followed by a lookup with the same items finds every item's
      content: a value kept from before the save, or else the translation of
      the first item with that content. */
  lemma SavedThenCached<V>(table: map<Key, V>, items: seq<Item>, translations: seq<V>, targetLang: string)
    requires |translations| >= |items| > 0
    ensures var found := GetCachedTranslations(BulkSaved(table, items, translations, targetLang), items, targetLang);
      found.Keys == ContentSet(items)
      && forall j :: 0 <= j < |items| && (forall i :: 0 <= i < j ==> items[i].content != items[j].content) ==>
        found[items[j].content] ==
          var k := Key(items[j].content, items[0].lang, targetLang);
          if k in table then table[k] else translations[j]
  {
    var saved := BulkSaved(table, items, translations, targetLang);
    var found := GetCachedTranslations(saved, items, targetLang);
    forall t | t in ContentSet(items) ensures t in found {
      var i :| 0 <= i < |items| && items[i].content == t;
      assert Key(items[i].content, items[0].lang, targetLang) in saved;
    }
    forall j | 0 <= j < |items| && (forall i :: 0 <= i < j ==> items[i].content != items[j].content)
      ensures found[items[j].content] ==
        var k := Key(items[j].content, items[0].lang, targetLang);
        if k in table then table[k] else translations[j]
    {
      var k := Key(items[j].content, items[0].lang, targetLang);
      assert items[j].content in ContentSet(items);
      if k !in table {
        FirstInBatchWins(table, items, translations, targetLang, j);
      }
    }
  }

  /** The `translations` table of one database file. */
  class TranslationStore<V> {
    var rows: map<Key, V>

    /** A freshly initialised, empty table. */
    constructor ()
      ensures rows == map[]
    {
      rows := map[];
    }

    /** `bulk_save_translations`: nothing happens for an empty batch; a batch
        with fewer translations than items raises IndexError while building the
        rows, before the table is touched; otherwise each row is inserted or
        ignored in turn. */
    method BulkSaveTranslations(items: seq<Item>, translations: seq<V>, targetLang: string) returns (ok: bool)
      modifies this
      ensures ok <==> |items| == 0 || |translations| >= |items|
      ensures rows == if ok then BulkSaved(old(rows), items, translations, targetLang) else old(rows)
    {
      if |items| == 0 {
        return true;
      }
      if |translations| < |items| {
        return false;
      }
      var data := SaveRows(items, translations, targetLang);
      var i := 0;
      while i < |data|
        invariant 0 <= i <= |data|
        invariant InsertOrIgnore(rows, data[i..]) == InsertOrIgnore(old(rows), data)
      {
        var row := data[i];
        assert data[i..][1..] == data[i + 1..];
        if row.key !in rows {
          rows := rows[row.key := row.translated];
        }
        i := i + 1;
      }
      ok := true;
    }
  }
}
