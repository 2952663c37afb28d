/**
 * The `ask` endpoint of server/app.py: the readiness gate, the blank
 * question check, the clamping of `top_k`, the vector search and the
 * mapping of search results to prompt hits and reply sources.
 *
 * The question embedding and the inner-product search are floating-point
 * work of foreign code; they are modelled together by `ranking`, the index
 * rows ordered best match first. The chat completion is the parameter
 * `complete`, a function of the prompt.
 */
module Retrieval {
  import opened Util
  import opened Strings
  import opened Corpus
  import opened Citations

  /** `TOP_K_DEFAULT`. */
  const TopKDefault: int := 6

  /** `payload.top_k or TOP_K_DEFAULT`, then `max(1, min(top_k, n))`: a
      missing or zero request means 6; the result is at least 1 and, when
      `n` is positive, at most `n`; a request inside `[1, n]` is kept. */
  function ClampTopK(topK: Option<int>, n: nat): (k: int)
    ensures k >= 1
    ensures n >= 1 ==> k <= n
    ensures n == 0 ==> k == 1
    ensures topK.Some? && topK.value != 0 && 1 <= topK.value <= n ==> k == topK.value
    ensures topK.Some? && topK.value > n ==> k == Max(1, n)
    ensures topK.Some? && topK.value < 0 ==> k == 1
    ensures (topK.None? || topK == Some(0)) ==> k == Max(1, Min(TopKDefault, n))
  {
    var requested := if topK.None? || topK.value == 0 then TopKDefault else topK.value;
    Max(1, Min(requested, n))
  }

  // ----- the search -----

  /** `ranking` orders all `n` rows of the index: each row exactly once. */
  predicate IsRanking(ranking: seq<nat>, n: nat)
  {
    && |ranking| == n
    && (forall j :: 0 <= j < n ==> ranking[j] < n)
    && (forall j, j' :: 0 <= j < j' < n ==> ranking[j] != ranking[j'])
  }

  /** The `-1` labels faiss puts where fewer than `k` rows exist. */
  function Padding(m: nat): (labels: seq<int>)
    ensures |labels| == m
    ensures forall j :: 0 <= j < m ==> labels[j] == -1
  {
    seq(m, j => -1)
  }

  /** `I[0]` of `index.search(v, k)`: the `k` best rows, best first; when
      `k` exceeds the number of rows the missing labels are `-1`. */
  function SearchLabels(ranking: seq<nat>, k: nat): (labels: seq<int>)
    ensures |labels| == k
    ensures forall j :: 0 <= j < k && j < |ranking| ==> labels[j] == ranking[j]
    ensures forall j :: |ranking| <= j < k ==> labels[j] == -1
  {
    var m := Min(k, |ranking|);
    ranking[..m] + Padding(k - m)
  }

  /** Python's `xs[j]`: a negative `j` counts from the end. */
  function PyIndex<T>(xs: seq<T>, j: int): (x: T)
    requires -|xs| <= j < |xs|
    ensures x in xs
    ensures j >= 0 ==> x == xs[j]
    ensures j < 0 ==> x == xs[|xs| + j]
  {
    if j >= 0 then xs[j] else xs[|xs| + j]
  }

  /** `[(docs[j][0], docs[j][1]) for j in idxs]`. */
  function HitsFor(docs: seq<Doc>, labels: seq<int>): (hits: seq<Doc>)
    requires forall j :: 0 <= j < |labels| ==> -|docs| <= labels[j] < |docs|
    ensures |hits| == |labels|
    ensures forall j :: 0 <= j < |labels| ==> hits[j] == PyIndex(docs, labels[j])
  {
    seq(|labels|, j requires 0 <= j < |labels| => PyIndex(docs, labels[j]))
  }

  // ----- ask -----

  /** The reply of `ask`. `NotReady` is the fixed "upload documents and
      build the index" answer with no sources. */
  datatype AskReply =
    | NotReady
    | NoQuestion
    | Answered(answer: string, sources: seq<Source>)

  /** The entry the search puts at result slot `i`: row `ranking[i]` while
      `i` is inside the index; past its end faiss answers `-1`, which
      `docs[-1]` turns into the last entry of `docs`. */
  function Cited(s: State, ranking: seq<nat>, i: nat): (d: Doc)
    requires Inv(s) && s.index.Some? && IsRanking(ranking, |s.index.value|)
    ensures d in s.docs
  {
    if i < |s.index.value| then s.docs[ranking[i]] else s.docs[|s.docs| - 1]
  }

  /** `hits` for a search of `k` results: one entry per result slot, the
      entry `Cited` names. */
  function Hits(s: State, ranking: seq<nat>, k: nat): (hits: seq<Doc>)
    requires Inv(s) && s.index.Some? && IsRanking(ranking, |s.index.value|)
    ensures |hits| == k
    ensures forall i :: 0 <= i < k ==> hits[i] == Cited(s, ranking, i)
  {
    var labels := SearchLabels(ranking, k);
    assert forall j :: 0 <= j < |labels| ==> -|s.docs| <= labels[j] < |s.docs|;
    HitsFor(s.docs, labels)
  }

  /** The prompt and sources once `ask` has settled on `k`: source `i` is
      numbered `i + 1` and shows the file and the preview of the entry at
      result slot `i`. */
  function Answer(s: State, w: Wording, question: string, k: nat, ranking: seq<nat>,
                  complete: seq<Message> -> string): (r: AskReply)
    requires Inv(s) && s.index.Some? && IsRanking(ranking, |s.index.value|)
    ensures r.Answered? && |r.sources| == k
    ensures forall i :: 0 <= i < k ==>
              r.sources[i] == Source(i + 1, Cited(s, ranking, i).file, Preview(Cited(s, ranking, i).text))
  {
    var hits := Hits(s, ranking, k);
    Answered(complete(MakePrompt(w, question, hits)), Sources(hits))
  }

  /** The server is ready to answer when an index exists and `docs` is not
      empty. */
  predicate Ready(s: State)
  {
    s.index.Some? && s.docs != []
  }

  /** `ask` as server/app.py writes it: `top_k` is clamped to `len(docs)`,
      which can exceed the number of rows in the index. */
  function AskAsWritten(s: State, w: Wording, question: string, topK: Option<int>, ranking: seq<nat>,
                        complete: seq<Message> -> string): (r: AskReply)
    requires Inv(s) && (s.index.Some? ==> IsRanking(ranking, |s.index.value|))
    ensures r == NotReady <==> !Ready(s)
    ensures r == NoQuestion <==> Ready(s) && IsBlank(question)
    ensures r.Answered? ==>
              && |r.sources| == ClampTopK(topK, |s.docs|)
              && forall i :: 0 <= i < |r.sources| ==>
                   r.sources[i] == Source(i + 1, Cited(s, ranking, i).file, Preview(Cited(s, ranking, i).text))
  {
    if s.index.None? || s.docs == [] then NotReady
    else if IsBlank(question) then NoQuestion
    else Answer(s, w, question, ClampTopK(topK, |s.docs|), ranking, complete)
  }

  /** `ask` with `top_k` clamped to the number of rows in the index, so that
      every hit is an indexed chunk: the reply cites exactly the
      `min(top_k, rows)` best rows, in ranking order, each by its position,
      its file and the preview of the very text that was embedded. */
  function Ask(s: State, w: Wording, question: string, topK: Option<int>, ranking: seq<nat>,
               complete: seq<Message> -> string): (r: AskReply)
    requires Inv(s) && (s.index.Some? ==> IsRanking(ranking, |s.index.value|))
    ensures r == NotReady <==> !Ready(s)
    ensures r == NoQuestion <==> Ready(s) && IsBlank(question)
    ensures r.Answered? ==>
              var rows := s.index.value;
              && |r.sources| == ClampTopK(topK, |rows|)
              && |r.sources| <= |rows|
              && forall i :: 0 <= i < |r.sources| ==>
                   && ranking[i] < |rows|
                   && r.sources[i].id == i + 1
                   && r.sources[i].file == s.docs[ranking[i]].file
                   && r.sources[i].preview == Preview(rows[ranking[i]])
  {
    if s.index.None? || s.docs == [] then NotReady
    else if IsBlank(question) then NoQuestion
    else Answer(s, w, question, ClampTopK(topK, |s.index.value|), ranking, complete)
  }

  // ----- properties across operations -----

  /** After `reset` every question gets the not-ready answer, before the
      question is even looked at. */
  lemma AskAfterReset(s: State, w: Wording, question: string, topK: Option<int>, ranking: seq<nat>,
                      complete: seq<Message> -> string)
    ensures Inv(Reset(s))
    ensures Ask(Reset(s), w, question, topK, ranking, complete) == NotReady
    ensures AskAsWritten(Reset(s), w, question, topK, ranking, complete) == NotReady
  {
  }

  /** Right after a successful `build` the index covers all of `docs`, so
      the two clamps coincide and the written `ask` behaves as intended. */
  lemma AskAgreesWhenFresh(s: State, w: Wording, question: string, topK: Option<int>, ranking: seq<nat>,
                           complete: seq<Message> -> string)
    requires Inv(s) && s.index.Some? && |s.index.value| == |s.docs|
    requires IsRanking(ranking, |s.index.value|)
    ensures AskAsWritten(s, w, question, topK, ranking, complete) == Ask(s, w, question, topK, ranking, complete)
  {
  }

  /** `build` makes the index fresh: whatever was uploaded before, `ask`
      after `build` cites indexed chunks only. */
  lemma AskAfterBuild(s: State, w: Wording, question: string, topK: Option<int>, ranking: seq<nat>,
                      complete: seq<Message> -> string)
    requires Inv(s) && s.docs != []
    requires IsRanking(ranking, |s.docs|)
    ensures var b := Build(s).0;
            Inv(b) && b.index.Some? && IsRanking(ranking, |b.index.value|) &&
            AskAsWritten(b, w, question, topK, ranking, complete) == Ask(b, w, question, topK, ranking, complete)
  {
    BuildProperties(s);
    AskAgreesWhenFresh(Build(s).0, w, question, topK, ranking, complete);
  }

  /** The sources of the corrected `ask` name distinct index rows, so no
      chunk is cited twice; contrast AsWrittenCitesLastEntry, where every
      slot past the index repeats the last entry of `docs`. */
  lemma AskCitesDistinctRows(s: State, w: Wording, question: string, topK: Option<int>, ranking: seq<nat>,
                             complete: seq<Message> -> string, i: nat, i': nat)
    requires Inv(s) && (s.index.Some? ==> IsRanking(ranking, |s.index.value|))
    requires Ask(s, w, question, topK, ranking, complete).Answered?
    requires i < i' < |Ask(s, w, question, topK, ranking, complete).sources|
    ensures ranking[i] != ranking[i']
    ensures ranking[i] < |s.index.value| && ranking[i'] < |s.index.value|
  {
  }

  /** Both versions of `ask` send the completion a prompt over the very
      hits whose sources they return, each hit the whole entry `Cited`
      names at its result slot, full text included; so the citation
      alignment of `CitationsAlign` and `PromptMarker` holds for the actual
      reply: `[k]` in the prompt introduces the hit source `k` describes. */
  lemma AskPromptMatchesSources(s: State, w: Wording, question: string, topK: Option<int>, ranking: seq<nat>,
                                complete: seq<Message> -> string)
    requires Inv(s) && (s.index.Some? ==> IsRanking(ranking, |s.index.value|))
    ensures var r := AskAsWritten(s, w, question, topK, ranking, complete);
            r.Answered? ==>
              exists hits ::
                && |hits| == |r.sources|
                && (forall i :: 0 <= i < |hits| ==> hits[i] == Cited(s, ranking, i))
                && r.answer == complete(MakePrompt(w, question, hits))
                && r.sources == Sources(hits)
    ensures var r := Ask(s, w, question, topK, ranking, complete);
            r.Answered? ==>
              exists hits ::
                && |hits| == |r.sources|
                && (forall i :: 0 <= i < |hits| ==> hits[i] == Cited(s, ranking, i))
                && r.answer == complete(MakePrompt(w, question, hits))
                && r.sources == Sources(hits)
  {
    if Ready(s) && !IsBlank(question) {
      var h := Hits(s, ranking, ClampTopK(topK, |s.docs|));
      assert AskAsWritten(s, w, question, topK, ranking, complete)
          == Answered(complete(MakePrompt(w, question, h)), Sources(h));
      var h' := Hits(s, ranking, ClampTopK(topK, |s.index.value|));
      assert Ask(s, w, question, topK, ranking, complete)
          == Answered(complete(MakePrompt(w, question, h')), Sources(h'));
    }
  }

  /** The written `ask`, when `top_k` exceeds the rows of an index that
      `docs` has outgrown, asks faiss for more rows than exist; every missing
      one comes back as label `-1`, and `docs[-1]` turns each into the LAST
      entry of `docs`, which lies past the indexed prefix and was never
      embedded. It is cited as a source all the same, once per missing row. */
  lemma AsWrittenCitesLastEntry(s: State, w: Wording, question: string, topK: Option<int>, ranking: seq<nat>,
                                complete: seq<Message> -> string)
    requires Inv(s) && Ready(s) && IsRanking(ranking, |s.index.value|)
    requires !IsBlank(question)
    requires ClampTopK(topK, |s.docs|) > |s.index.value|
    ensures |s.docs| - 1 >= |s.index.value|
    ensures var r := AskAsWritten(s, w, question, topK, ranking, complete);
            var rows := s.index.value;
            var last := s.docs[|s.docs| - 1];
            && r.Answered? && |r.sources| > |rows|
            && forall i :: |rows| <= i < |r.sources| ==>
                 r.sources[i] == Source(i + 1, last.file, Preview(last.text))
  {
  }

  /** The written and the corrected `ask` differ exactly when the server is
      ready, the question is not blank and `top_k`, clamped to `len(docs)`,
      exceeds the number of indexed rows. */
  lemma AsWrittenAgreesIff(s: State, w: Wording, question: string, topK: Option<int>, ranking: seq<nat>,
                           complete: seq<Message> -> string)
    requires Inv(s) && (s.index.Some? ==> IsRanking(ranking, |s.index.value|))
    ensures AskAsWritten(s, w, question, topK, ranking, complete) == Ask(s, w, question, topK, ranking, complete)
            <==> !Ready(s) || IsBlank(question) || ClampTopK(topK, |s.docs|) <= |s.index.value|
  {
  }

  /** The state `upload` (`a.txt`, text `x`) on the empty server, then
      `build`, then `upload` (`b.txt`, text `y`) leaves, for a chunker that
      keeps each of the two one-letter texts as one chunk: `b.txt` is in
      `docs` but not in the index. */
  function Stale(chunkText: string -> seq<string>): (s: State)
    requires chunkText("x") == ["x"] && chunkText("y") == ["y"]
    ensures s == State([Doc("a.txt", "x"), Doc("b.txt", "y")], Some(["x"]))
    ensures Inv(s)
  {
    var a, b := UploadedFile("a.txt", "x"), UploadedFile("b.txt", "y");
    assert !IsBlank(a.text) by {
      assert !IsSpace(a.text[0]);
    }
    assert !IsBlank(b.text) by {
      assert !IsSpace(b.text[0]);
    }
    SingleChunkFile(a, chunkText);
    SingleChunkFile(b, chunkText);
    var uploaded := State(Empty.docs + Entries([a], chunkText), Empty.index);
    var built := Build(uploaded).0;
    assert built.index.value == ["x"] by {
      assert |built.index.value| == 1 && built.index.value[0] == "x";
    }
    State(built.docs + Entries([b], chunkText), built.index)
  }

  /** The replies in the state `Stale` leaves: a question with the default
      `top_k` gets two sources as written, one of them `b.txt`, whose chunk
      is not in the index; the intended `ask` cites `a.txt` alone. */
  lemma StaleReplies(w: Wording, complete: seq<Message> -> string)
    ensures var s := State([Doc("a.txt", "x"), Doc("b.txt", "y")], Some(["x"]));
            && Inv(s)
            && "y" !in s.index.value
            && AskAsWritten(s, w, "q", None, [0], complete).Answered?
            && AskAsWritten(s, w, "q", None, [0], complete).sources
               == [Source(1, "a.txt", "x"), Source(2, "b.txt", "y")]
            && Ask(s, w, "q", None, [0], complete).Answered?
            && Ask(s, w, "q", None, [0], complete).sources == [Source(1, "a.txt", "x")]
  {
    var s := State([Doc("a.txt", "x"), Doc("b.txt", "y")], Some(["x"]));
    assert !IsBlank("q") by {
      assert !IsSpace("q"[0]);
    }
    assert IsRanking([0], 1);
    var stale := AskAsWritten(s, w, "q", None, [0], complete).sources;
    assert |stale| == 2;
    assert Cited(s, [0], 0) == Doc("a.txt", "x") && Cited(s, [0], 1) == Doc("b.txt", "y");
    assert stale[0] == Source(1, "a.txt", "x") && stale[1] == Source(2, "b.txt", "y");
    var fixed := Ask(s, w, "q", None, [0], complete).sources;
    assert |fixed| == 1;
    assert fixed[0] == Source(1, "a.txt", "x");
  }

  /** A concrete case: after upload `a.txt`, `build`, upload `b.txt`, a
      question with the default `top_k` cites `b.txt`, whose chunk is not in
      the index; the intended `ask` cites `a.txt` alone. */
  lemma UnindexedCitation(w: Wording, complete: seq<Message> -> string, chunkText: string -> seq<string>)
    requires chunkText("x") == ["x"] && chunkText("y") == ["y"]
    ensures "y" !in Stale(chunkText).index.value
    ensures AskAsWritten(Stale(chunkText), w, "q", None, [0], complete).Answered?
    ensures AskAsWritten(Stale(chunkText), w, "q", None, [0], complete).sources
         == [Source(1, "a.txt", "x"), Source(2, "b.txt", "y")]
    ensures Ask(Stale(chunkText), w, "q", None, [0], complete).Answered?
    ensures Ask(Stale(chunkText), w, "q", None, [0], complete).sources == [Source(1, "a.txt", "x")]
  {
    StaleReplies(w, complete);
  }
}
