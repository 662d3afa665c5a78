/** `answer`: search, then answer from the hits, either with the chat model
    or by quoting the best hit. The chat model is an input: a function from
    the question and the hits to the reply's text. */
module Answer {
  import opened Wrappers
  import opened Text
  import opened Records
  import opened Retrieve

  /** The "don't know" sentinel. */
  const DontKnow := "Jeg vet ikke."

  /** The reply of the chat model for a question and the hits it is shown. */
  type Chat = (string, seq<Hit<Meta>>) -> string

  /** `_extractive_answer`: the best hit's text, stripped, or the sentinel
      when there is no hit. */
  function ExtractiveAnswer(hits: seq<Hit<Meta>>): (r: string)
    ensures hits == [] ==> r == DontKnow
    ensures hits != [] ==> NonSpace(r) == NonSpace(hits[0].row.text)
    ensures hits != [] ==> r == [] || (!IsSpace(r[0]) && !IsSpace(r[|r| - 1]))
  {
    if hits == [] then DontKnow
    else
      StripNonSpace(hits[0].row.text);
      Strip(hits[0].row.text)
  }

  /** Only the first hit matters to the extractive answer. */
  lemma ExtractiveUsesFirstHit(hits1: seq<Hit<Meta>>, hits2: seq<Hit<Meta>>)
    requires hits1 != [] && hits2 != [] && hits1[0].row.text == hits2[0].row.text
    ensures ExtractiveAnswer(hits1) == ExtractiveAnswer(hits2)
  {
  }

  /** `_llm_answer`: without a client it falls back to the extractive
      answer; with one, the reply is stripped. */
  function LlmAnswer(q: string, hits: seq<Hit<Meta>>, client: Option<Chat>): (r: string)
    ensures client.None? ==> r == ExtractiveAnswer(hits)
    ensures client.Some? ==> NonSpace(r) == NonSpace(client.value(q, hits))
  {
    match client
    case None => ExtractiveAnswer(hits)
    case Some(chat) =>
      StripNonSpace(chat(q, hits));
      Strip(chat(q, hits))
  }

  /** `answer(q, k)` given the similarity of `q` to every row: the hits are
      exactly what `search` returns, and the answer is computed from
      `hits[:k]`. */
  function AnswerQuery(meta: seq<Meta>, sims: seq<real>, k: int, useOpenai: bool, client: Option<Chat>, q: string)
    : (r: Result<(string, seq<Hit<Meta>>), SearchError>)
    ensures r.Ok? <==> Search(meta, sims, k).Ok?
    ensures r.Err? ==> r.error == Search(meta, sims, k).error
    ensures r.Ok? ==> r.value.1 == Search(meta, sims, k).value
    ensures r.Ok? && !useOpenai ==> r.value.0 == ExtractiveAnswer(Slice(r.value.1, k))
  {
    var hits :- Search(meta, sims, k);
    var context := Slice(hits, k);
    var ans := if useOpenai then LlmAnswer(q, context, client) else ExtractiveAnswer(context);
    Ok((ans, hits))
  }

  /** For `k >= 0` the second cut `hits[:k]` keeps every hit. */
  lemma ContextIsAllHits(meta: seq<Meta>, sims: seq<real>, k: int)
    requires 0 <= k && Search(meta, sims, k).Ok?
    ensures Slice(Search(meta, sims, k).value, k) == Search(meta, sims, k).value
  {
  }

  /** Asking for the chat model without a client answers exactly as the
      extractive path does. */
  lemma NoClientFallsBack(meta: seq<Meta>, sims: seq<real>, k: int, client: Option<Chat>, q: string)
    ensures AnswerQuery(meta, sims, k, true, None, q) == AnswerQuery(meta, sims, k, false, client, q)
  {
  }

  /** The first hit of a true top selection scores at least as high as every
      row. */
  lemma TopFirstIsBest(top: seq<nat>, sims: seq<real>, m: nat)
    requires IsTopK(top, sims, m) && m > 0
    ensures forall i :: 0 <= i < |sims| ==> sims[i] <= sims[top[0]]
  {
    forall i | 0 <= i < |sims| ensures sims[i] <= sims[top[0]] {
      if i !in top {
        assert sims[i] <= sims[top[m - 1]];
      }
    }
  }

  /** With one score per row, `search` succeeds and its first hit is a
      row that scores highest of all. */
  lemma FirstHitIsBest(meta: seq<Meta>, sims: seq<real>, k: int)
    requires |sims| == |meta| && 0 < k && meta != []
    ensures Search(meta, sims, k).Ok? && Search(meta, sims, k).value != []
    ensures exists i :: 0 <= i < |meta| && (forall j :: 0 <= j < |sims| ==> sims[j] <= sims[i])
                        && Search(meta, sims, k).value[0].row == meta[i]
  {
    var top := TopIndices(sims, k);
    TopIndicesAreTopK(sims, k);
    TopFirstIsBest(top, sims, |top|);
    assert Search(meta, sims, k).value[0].row == meta[top[0]];
  }

  /** With one score per row and no chat model, the answer quotes a row that
      scores highest of all, stripped; with no rows or `k == 0` it is the
      sentinel. */
  lemma ExtractiveAnswerQuotesBestRow(meta: seq<Meta>, sims: seq<real>, k: int, client: Option<Chat>, q: string)
    requires |sims| == |meta| && 0 <= k
    ensures AnswerQuery(meta, sims, k, false, client, q).Ok?
    ensures meta == [] || k == 0 ==> AnswerQuery(meta, sims, k, false, client, q).value.0 == DontKnow
    ensures meta != [] && k > 0 ==>
              exists i :: 0 <= i < |meta| && (forall j :: 0 <= j < |sims| ==> sims[j] <= sims[i])
                          && AnswerQuery(meta, sims, k, false, client, q).value.0 == Strip(meta[i].text)
  {
    SearchSpec(meta, sims, k);
    var hits := Search(meta, sims, k).value;
    ContextIsAllHits(meta, sims, k);
    var ans := AnswerQuery(meta, sims, k, false, client, q).value.0;
    assert ans == ExtractiveAnswer(hits);
    if meta != [] && k > 0 {
      FirstHitIsBest(meta, sims, k);
    }
  }
}
