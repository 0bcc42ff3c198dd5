/** The word count stage of src/pipeline/word_count.rs: a mapper that splits
    the text on single spaces and emits each token with count 1, and a
    reducer that sums the counts of a word. */
module WordCount {
  import opened Seqs
  import opened MapReduce

  /** `WordCount`: a word and its count, seen by the shuffle through
      `get_key` (the word) and `get_value` (the count). */
  datatype WordCount = WordCount(word: string, count: int)
  {
    function GetKey(): string
    {
      word
    }

    function GetValue(): int
    {
      count
    }

    /** The record as the shuffle sees it. */
    function AsKeyable(): (r: Keyable<string, int>)
    {
      Keyable(GetKey(), GetValue())
    }
  }

  /** `get_key` and `get_value` hand back the word and the count unchanged:
      a record is rebuilt from what the shuffle sees of it. */
  lemma KeyableRoundTrip(w: WordCount)
    ensures WordCount(w.AsKeyable().key, w.AsKeyable().value) == w
  {
  }

  /** Rust's `split(" ")`: the maximal runs between single spaces, empty
      runs included (adjacent spaces, a leading or trailing space, or an
      empty text each give an empty token). */
  function Split(s: string): (r: seq<string>)
    ensures |r| >= 1
  {
    if |s| == 0 then [""]
    else
      var rest := Split(s[1..]);
      if s[0] == ' ' then [""] + rest else [[s[0]] + rest[0]] + rest[1..]
  }

  /** The tokens joined back with single spaces. */
  function Join(ts: seq<string>): string
    requires |ts| >= 1
  {
    if |ts| == 1 then ts[0] else ts[0] + " " + Join(ts[1..])
  }

  /** Splitting loses nothing: joining the tokens gives back the text. */
  lemma {:induction false} JoinSplit(s: string)
    ensures Join(Split(s)) == s
  {
    if |s| > 0 {
      JoinSplit(s[1..]);
      var rest := Split(s[1..]);
      if s[0] == ' ' {
        assert ([""] + rest)[1..] == rest;
        assert s == " " + s[1..];
      } else if |rest| == 1 {
        assert s == [s[0]] + s[1..];
      } else {
        var r := [[s[0]] + rest[0]] + rest[1..];
        assert r[1..] == rest[1..];
        assert Join(rest) == rest[0] + " " + Join(rest[1..]);
        assert s == [s[0]] + s[1..];
      }
    }
  }

  /** There is one token more than there are spaces. */
  lemma {:induction false} SplitCount(s: string)
    ensures |Split(s)| == Count(s, ' ') + 1
  {
    if |s| > 0 {
      SplitCount(s[1..]);
    }
  }

  /** No token holds a space. */
  lemma {:induction false} SplitHasNoSpace(s: string)
    ensures forall i :: 0 <= i < |Split(s)| ==> ' ' !in Split(s)[i]
  {
    if |s| > 0 {
      SplitHasNoSpace(s[1..]);
      var rest := Split(s[1..]);
      if s[0] != ' ' {
        var r := [[s[0]] + rest[0]] + rest[1..];
        forall i | 0 <= i < |r| ensures ' ' !in r[i] {
          if i > 0 {
            assert r[i] == rest[i];
          }
        }
      }
    }
  }

  /** The records the mapper emits for `tokens`: each token with count 1, in order. */
  function Records(tokens: seq<string>): (r: MapStageOutput<string, int>)
    ensures |r| == |tokens| && forall i :: 0 <= i < |tokens| ==> r[i] == Keyable(tokens[i], 1)
  {
    if |tokens| == 0 then [] else [WordCount(tokens[0], 1).AsKeyable()] + Records(tokens[1..])
  }

  /** `word_count_mapper` (lines 23-35), with the UTF-8 decoding and the
      lowercasing of lines 25 and 29 given as `decodeLower`: one record per
      token, in order, each with count 1; one record more than spaces. */
  method WordCountMapper(decodeLower: seq<bv8> -> string, raw: seq<bv8>) returns (records: MapStageOutput<string, int>)
    ensures records == Records(Split(decodeLower(raw)))
    ensures |records| == Count(decodeLower(raw), ' ') + 1
  {
    var fullText := decodeLower(raw);
    var tokens := Split(fullText);
    records := [];
    for i := 0 to |tokens|
      invariant records == Records(tokens[..i])
    {
      assert Records(tokens[..i + 1]) == Records(tokens[..i]) + [Keyable(tokens[i], 1)];
      records := records + [WordCount(tokens[i], 1).AsKeyable()];
    }
    assert tokens[..|tokens|] == tokens;
    SplitCount(fullText);
  }

  /** `word_count_reducer` (lines 37-40): the word unchanged with the sum of its counts. */
  function WordCountReducer(key: string, vs: seq<int>): (r: (string, int))
    ensures r.0 == key
    ensures (forall i :: 0 <= i < |vs| ==> vs[i] == 1) ==> r.1 == |vs|
  {
    SumOfOnes(vs);
    (key, Sum(vs))
  }

  /** The word count stage, with `decodeLower` for the decoding and lowercasing. */
  function WordCountStage(decodeLower: seq<bv8> -> string): (st: PipelineStage<string, int>)
    ensures forall raw :: st.mapFunc(raw) == Records(Split(decodeLower(raw)))
  {
    PipelineStage(raw => Records(Split(decodeLower(raw))), (k, vs) => WordCountReducer(k, vs))
  }

  /** The words the shuffle groups are the tokens. */
  lemma RecordKeys(tokens: seq<string>)
    ensures KeysOf(Records(tokens)) == Elems(tokens)
  {
    var r := Records(tokens);
    forall w | w in Elems(tokens) ensures w in KeysOf(r) {
      var i :| 0 <= i < |tokens| && tokens[i] == w;
      assert r[i].key == w;
    }
  }

  /** The group of a word holds a 1 per occurrence of the word among the tokens. */
  lemma {:induction false} RecordGroup(tokens: seq<string>, w: string)
    ensures |ValuesOf(Records(tokens), w)| == Count(tokens, w)
    ensures forall i :: 0 <= i < |ValuesOf(Records(tokens), w)| ==> ValuesOf(Records(tokens), w)[i] == 1
  {
    if |tokens| > 0 {
      var init := tokens[..|tokens| - 1];
      RecordGroup(init, w);
      assert Records(tokens)[..|tokens| - 1] == Records(init);
      CountAppend(init, [tokens[|tokens| - 1]], w);
      assert init + [tokens[|tokens| - 1]] == tokens;
    }
  }

  /** Mapper, shuffle and reducer end to end: one pair per distinct token,
      each with the number of times the token occurs. */
  method WordCountPipeline(decodeLower: seq<bv8> -> string, raw: seq<bv8>) returns (out: seq<(string, int)>, order: seq<string>)
    ensures NoDup(order) && Elems(order) == Elems(Split(decodeLower(raw)))
    ensures |out| == |order| && forall i :: 0 <= i < |out| ==> out[i] == (order[i], Count(Split(decodeLower(raw)), order[i]))
  {
    var stage := WordCountStage(decodeLower);
    var tokens := Split(decodeLower(raw));
    var records := WordCountMapper(decodeLower, raw);
    assert records == stage.ApplyMap(raw);
    var groups := stage.ApplyShuffle(records);
    RecordKeys(tokens);
    out, order := stage.ApplyReduce(groups);
    forall i | 0 <= i < |out| ensures out[i] == (order[i], Count(tokens, order[i])) {
      RecordGroup(tokens, order[i]);
    }
  }
}
