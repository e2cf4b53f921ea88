/** The translator's own logic, without the language-model client: the
    numbered text sent to every language chain, the parsing of each chain's
    answer, the positional assembly of one record per item, and the chunking
    of a large input into batches.

    The language model is a parameter `llm(lang, text)` that gives the answer
    text the chain for `lang` receives for the prompt built from `text`;
    a chain is that answer passed through `ParseOutput`. */
module Translator {
  import opened Models
  import opened Text

  /** A `". "` separator starts at index j of s. */
  predicate SepAt(s: string, j: int) {
    0 <= j && j + 1 < |s| && s[j] == '.' && s[j + 1] == ' '
  }

  /** The index of the first `". "` in s, if there is one. */
  function SepIndex(s: string): (r: Option<nat>)
    ensures r.Some? ==> SepAt(s, r.value) && forall j :: 0 <= j < r.value ==> !SepAt(s, j)
    ensures r.None? ==> forall j :: !SepAt(s, j)
  {
    if |s| < 2 then None
    else if s[0] == '.' && s[1] == ' ' then Some(0)
    else
      var rest := SepIndex(s[1..]);
      assert forall j :: 1 <= j ==> (SepAt(s, j) <==> SepAt(s[1..], j - 1));
      match rest
      case None => None
      case Some(k) => Some(k + 1)
  }

  /** `line.split(". ", 1)[1] if ". " in line else line`: the text after the
      first `". "`, or the whole line when it has none. */
  function StripNumber(line: string): (r: string)
    ensures (forall j :: !SepAt(line, j)) ==> r == line
    ensures forall j :: SepAt(line, j) && (forall i :: 0 <= i < j ==> !SepAt(line, i)) ==> r == line[j + 2..]
  {
    match SepIndex(line)
    case None => line
    case Some(j) => line[j + 2..]
  }

  /** The lines that are not blank, in their order. */
  function NonBlankLines(lines: seq<string>): (r: seq<string>)
    ensures |r| <= |lines|
    ensures forall k :: 0 <= k < |r| ==> !IsBlank(r[k]) && r[k] in lines
    ensures forall i :: 0 <= i < |lines| && !IsBlank(lines[i]) ==> lines[i] in r
    ensures (forall i :: 0 <= i < |lines| ==> !IsBlank(lines[i])) ==> r == lines
    ensures |lines| == 1 ==> r == if IsBlank(lines[0]) then [] else lines
  {
    if |lines| == 0 then []
    else
      var rest := NonBlankLines(lines[1..]);
      assert forall i :: 1 <= i < |lines| ==> lines[i] == lines[1..][i - 1];
      if IsBlank(lines[0]) then rest else [lines[0]] + rest
  }

  /** The filter works line by line: the kept lines of a concatenation are
      the kept lines of each part, in the same order. */
  lemma {:induction false} NonBlankLinesAppend(a: seq<string>, b: seq<string>)
    ensures NonBlankLines(a + b) == NonBlankLines(a) + NonBlankLines(b)
    decreases |a|
  {
    if |a| == 0 {
      assert a + b == b;
    } else {
      assert (a + b)[0] == a[0] && (a + b)[1..] == a[1..] + b;
      NonBlankLinesAppend(a[1..], b);
    }
  }

  /** The comprehension of `_parse_output` over a list of lines: blank lines
      dropped, every other line stripped of its number; one result per
      non-blank line, in order. */
  function ParseLines(lines: seq<string>): (r: seq<string>)
    ensures |r| == |NonBlankLines(lines)|
    ensures forall k :: 0 <= k < |r| ==> r[k] == StripNumber(NonBlankLines(lines)[k])
  {
    if |lines| == 0 then []
    else if IsBlank(lines[0]) then ParseLines(lines[1..])
    else [StripNumber(lines[0])] + ParseLines(lines[1..])
  }

  /** `_parse_output`: the answer split at newlines and parsed line by line. */
  function ParseOutput(content: string): (r: seq<string>)
    ensures |r| == |NonBlankLines(SplitLines(content))|
    ensures forall k :: 0 <= k < |r| ==> r[k] == StripNumber(NonBlankLines(SplitLines(content))[k])
  {
    ParseLines(SplitLines(content))
  }

  /** `f"{n}. {content}"`. */
  function NumberedLine(n: nat, content: string): (r: string)
    ensures NoNewline(content) ==> NoNewline(r)
    ensures !IsBlank(r)
  {
    var d := Decimal(n);
    var r := d + ". " + content;
    assert r[0] == d[0];
    assert forall k :: 0 <= k < |d| ==> r[k] == d[k];
    assert forall k :: |d| + 2 <= k < |r| ==> r[k] == content[k - |d| - 2];
    r
  }

  /** The text `translate_batch` sends to every chain: line i (from 1) is
      `"i. "` followed by the i-th content, lines joined by newlines. */
  function NumberedText(contents: seq<string>): (r: string)
    ensures |contents| == 0 ==> r == ""
    ensures |contents| > 0 && (forall i :: 0 <= i < |contents| ==> NoNewline(contents[i])) ==>
      |SplitLines(r)| == |contents|
      && forall i :: 0 <= i < |contents| ==> SplitLines(r)[i] == NumberedLine(i + 1, contents[i])
  {
    var lines := seq(|contents|, i requires 0 <= i < |contents| => NumberedLine(i + 1, contents[i]));
    if |contents| > 0 && forall i :: 0 <= i < |contents| ==> NoNewline(contents[i]) then
      SplitJoin(lines);
      JoinLines(lines)
    else
      JoinLines(lines)
  }

  /** Removing the number from a numbered line gives back its content. */
  lemma StripNumberedLine(n: nat, content: string)
    ensures StripNumber(NumberedLine(n, content)) == content
  {
    var d := Decimal(n);
    var line := NumberedLine(n, content);
    assert SepAt(line, |d|);
    forall i | 0 <= i < |d| ensures !SepAt(line, i) {
      assert line[i] == d[i];
    }
    assert line[|d| + 2..] == content;
  }

  /** Parsing the numbered text gives back exactly the contents, empty ones
      included, provided no content holds a newline. */
  lemma NumberedRoundTrip(contents: seq<string>)
    requires forall i :: 0 <= i < |contents| ==> NoNewline(contents[i])
    ensures ParseOutput(NumberedText(contents)) == contents
  {
    if |contents| == 0 {
      assert SplitLines("") == [""];
      assert NonBlankLines([""]) == [];
    } else {
      var lines := SplitLines(NumberedText(contents));
      assert NonBlankLines(lines) == lines;
      forall k | 0 <= k < |contents| ensures ParseOutput(NumberedText(contents))[k] == contents[k] {
        StripNumberedLine(k + 1, contents[k]);
      }
    }
  }

  /** The blank-line filter applies before the number is removed, so a numbered
      line with an empty text parses to an empty string. */
  lemma ParseKeepsEmptyText()
    ensures ParseOutput("1. ") == [""]
  {
    assert SplitLines("1. ") == ["1. "] by { SplitNoNewline("1. "); }
    assert !IsBlank("1. ") by { assert !IsSpace("1. "[0]); }
    assert SepAt("1. ", 1);
    assert !SepAt("1. ", 0);
    assert "1. "[3..] == "";
  }

  /** The parsed answer of the chain for `lang` on a batch. */
  function Chain(llm: (string, string) -> string, lang: string, items: seq<Item>): (r: seq<string>)
    ensures var text := NumberedText(Contents(items));
      (forall i :: 0 <= i < |items| ==> NoNewline(items[i].content)) && llm(lang, text) == text ==>
        r == Contents(items)
  {
    var text := NumberedText(Contents(items));
    if (forall i :: 0 <= i < |items| ==> NoNewline(items[i].content)) && llm(lang, text) == text then
      NumberedRoundTrip(Contents(items));
      ParseOutput(llm(lang, text))
    else
      ParseOutput(llm(lang, text))
  }

  /** The parsed answers of the seven chains, in `TargetLangs` order (what
      `asyncio.gather` collects, here computed one language after another). */
  function Answers(llm: (string, string) -> string, items: seq<Item>): (r: seq<seq<string>>)
    ensures |r| == |TargetLangs|
    ensures forall l :: 0 <= l < |TargetLangs| ==> r[l] == Chain(llm, TargetLangs[l], items)
  {
    seq(|TargetLangs|, l requires 0 <= l < |TargetLangs| => Chain(llm, TargetLangs[l], items))
  }

  /** Every chain's parsed answer has an entry for every item of the batch. */
  predicate BatchFits(llm: (string, string) -> string, items: seq<Item>) {
    forall l :: 0 <= l < |TargetLangs| ==> |Answers(llm, items)[l]| >= |items|
  }

  /** The record built for item idx from the answers of the seven chains. */
  function RecordAt(answers: seq<seq<string>>, items: seq<Item>, idx: nat): (r: TranslationResult)
    requires |answers| == |TargetLangs| && idx < |items|
    requires forall l :: 0 <= l < |TargetLangs| ==> idx < |answers[l]|
    ensures r.key == items[idx].content && r.zh == Some(items[idx].content)
    ensures r.langs.Keys == LangSet()
    ensures forall l :: 0 <= l < |TargetLangs| ==> r.langs[TargetLangs[l]] == answers[l][idx]
  {
    TargetLangsDistinct();
    var r := TranslationResult(items[idx].content, Some(items[idx].content),
      map l | 0 <= l < |TargetLangs| :: TargetLangs[l] := answers[l][idx]);
    forall lang | lang in LangSet() ensures lang in r.langs {
      var l :| 0 <= l < |TargetLangs| && TargetLangs[l] == lang;
    }
    r
  }

  /** The record `translate_batch` builds for item idx: its content as key and
      zh, and for each target language entry idx of that language's answer. */
  function ResultAt(llm: (string, string) -> string, items: seq<Item>, idx: nat): (r: TranslationResult)
    requires BatchFits(llm, items) && idx < |items|
    ensures r.key == items[idx].content && r.zh == Some(items[idx].content)
    ensures r.langs.Keys == LangSet()
    ensures forall l :: 0 <= l < |TargetLangs| ==> r.langs[TargetLangs[l]] == Chain(llm, TargetLangs[l], items)[idx]
  {
    RecordAt(Answers(llm, items), items, idx)
  }

  /** A model that answers with the numbered text unchanged gets every item
      back as its own translation in every language. */
  lemma EchoedBatch(llm: (string, string) -> string, items: seq<Item>)
    requires forall lang, text :: llm(lang, text) == text
    requires forall i :: 0 <= i < |items| ==> NoNewline(items[i].content)
    ensures BatchFits(llm, items)
    ensures forall l, idx :: 0 <= l < |TargetLangs| && 0 <= idx < |items| ==>
      ResultAt(llm, items, idx).langs[TargetLangs[l]] == items[idx].content
  {
    var text := NumberedText(Contents(items));
    forall l | 0 <= l < |TargetLangs| ensures Answers(llm, items)[l] == Contents(items) {
      assert llm(TargetLangs[l], text) == text;
    }
  }

  /** `translate_batch`: every chain gets the numbered text of the whole batch;
      record idx takes entry idx of every chain's answer, and an answer with too
      few entries raises IndexError. */
  method TranslateBatch(items: seq<Item>, llm: (string, string) -> string) returns (r: Result<seq<TranslationResult>>)
    ensures r.Ok? <==> BatchFits(llm, items)
    ensures r.Err? ==> r.error == IndexError
    ensures r.Ok? ==> (|r.value| == |items|
      && forall idx :: 0 <= idx < |items| ==> r.value[idx] == ResultAt(llm, items, idx))
  {
    var text := NumberedText(Contents(items));
    var allResults := seq(|TargetLangs|, l requires 0 <= l < |TargetLangs| => ParseOutput(llm(TargetLangs[l], text)));
    assert allResults == Answers(llm, items);
    var results: seq<TranslationResult> := [];
    var idx := 0;
    while idx < |items|
      invariant 0 <= idx <= |items|
      invariant forall l :: 0 <= l < |TargetLangs| ==> |allResults[l]| >= idx
      invariant |results| == idx
      invariant forall k :: 0 <= k < idx ==> results[k] == RecordAt(allResults, items, k)
    {
      if exists l :: 0 <= l < |TargetLangs| && |allResults[l]| <= idx {
        return Err(IndexError);
      }
      results := results + [RecordAt(allResults, items, idx)];
      idx := idx + 1;
    }
    r := Ok(results);
  }

  function Min(a: int, b: int): int {
    if a <= b then a else b
  }

  /** Where the slice holding item j starts when `translate_large_batch`
      steps through the input `size` items at a time. */
  function ChunkStart(j: nat, size: nat): (r: nat)
    requires size > 0
    ensures r <= j < r + size
  {
    if j < size then 0 else ChunkStart(j - size, size) + size
  }

  /** Every item from i to i + size - 1 lies in the slice starting at i. */
  predicate StartsChunk(i: nat, size: nat)
    requires size > 0
  {
    forall j :: i <= j < i + size ==> ChunkStart(j, size) == i
  }

  /** The slices start every `size` items. */
  lemma {:induction false} NextChunk(i: nat, size: nat)
    requires size > 0 && StartsChunk(i, size)
    ensures StartsChunk(i + size, size)
  {
    forall j | i + size <= j < i + 2 * size ensures ChunkStart(j, size) == i + size {
      assert ChunkStart(j - size, size) == i;
    }
  }

  /** The item at the start of a slice belongs to that slice. */
  lemma SliceAt(items: seq<Item>, size: nat, i: nat)
    requires size > 0 && StartsChunk(i, size) && i < |items|
    ensures Chunk(items, size, i) == items[i..Min(i + size, |items|)]
  {
    assert ChunkStart(i, size) == i;
  }

  /** The slice `items[start:start + size]` that holds item j. */
  function Chunk(items: seq<Item>, size: nat, j: nat): (r: seq<Item>)
    requires size > 0 && j < |items|
    ensures 0 < |r| <= size
    ensures j - ChunkStart(j, size) < |r| && r[j - ChunkStart(j, size)] == items[j]
  {
    var start := ChunkStart(j, size);
    items[start..Min(start + size, |items|)]
  }

  /** The first |results| records are those the slices produce. */
  predicate SlicedResults(llm: (string, string) -> string, items: seq<Item>, size: nat, results: seq<TranslationResult>)
    requires size > 0
  {
    |results| <= |items|
    && forall j :: 0 <= j < |results| ==>
      BatchFits(llm, Chunk(items, size, j))
      && results[j] == ResultAt(llm, Chunk(items, size, j), j - ChunkStart(j, size))
  }

  /** Appending the records of the slice starting at i extends the records
      of the slices before it. */
  lemma AppendSlice(llm: (string, string) -> string, items: seq<Item>, size: nat, i: nat,
                    results: seq<TranslationResult>, records: seq<TranslationResult>)
    requires size > 0 && StartsChunk(i, size) && i < |items|
    requires |results| == i && SlicedResults(llm, items, size, results)
    requires BatchFits(llm, items[i..Min(i + size, |items|)])
    requires |records| == Min(i + size, |items|) - i
    requires forall idx :: 0 <= idx < |records| ==> records[idx] == ResultAt(llm, items[i..Min(i + size, |items|)], idx)
    ensures SlicedResults(llm, items, size, results + records)
    ensures StartsChunk(i + size, size)
  {
    var batch := items[i..Min(i + size, |items|)];
    var all := results + records;
    forall j | 0 <= j < |all|
      ensures BatchFits(llm, Chunk(items, size, j))
      ensures all[j] == ResultAt(llm, Chunk(items, size, j), j - ChunkStart(j, size))
    {
      if j >= i {
        assert ChunkStart(j, size) == i;
        assert Chunk(items, size, j) == batch;
        assert all[j] == records[j - i];
      } else {
        assert all[j] == results[j];
      }
    }
    NextChunk(i, size);
  }

  /** `translate_large_batch`: consecutive slices of `batchSize` items are
      translated in order and the records concatenated, so record j is the one
      its slice produced for it. A step of zero makes `range` raise, a
      negative step gives no slice at all, and a slice whose translation
      raises stops the whole call. */
  method TranslateLargeBatch(items: seq<Item>, llm: (string, string) -> string, batchSize: int := 50)
    returns (r: Result<seq<TranslationResult>>)
    ensures batchSize == 0 ==> r == Err(ValueError)
    ensures batchSize < 0 ==> r == Ok([])
    ensures batchSize > 0 ==> (r.Ok? <==> forall j :: 0 <= j < |items| ==> BatchFits(llm, Chunk(items, batchSize, j)))
    ensures batchSize > 0 && r.Err? ==> r.error == IndexError
    ensures batchSize > 0 && r.Ok? ==> (|r.value| == |items|
      && forall j :: 0 <= j < |items| ==>
        r.value[j] == ResultAt(llm, Chunk(items, batchSize, j), j - ChunkStart(j, batchSize)))
  {
    if batchSize == 0 {
      return Err(ValueError);
    }
    if batchSize < 0 {
      return Ok([]);
    }
    var results: seq<TranslationResult> := [];
    var i := 0;
    while i < |items|
      invariant i >= 0
      invariant StartsChunk(i, batchSize)
      invariant |results| == Min(i, |items|)
      invariant SlicedResults(llm, items, batchSize, results)
    {
      var batch := items[i..Min(i + batchSize, |items|)];
      SliceAt(items, batchSize, i);
      var b := TranslateBatch(batch, llm);
      if b.Err? {
        return b;
      }
      AppendSlice(llm, items, batchSize, i, results, b.value);
      results := results + b.value;
      i := i + batchSize;
    }
    r := Ok(results);
  }
}
