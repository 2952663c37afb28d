/**
 * `chunk_text` of server/app.py: the token sequence of a text is cut into
 * windows of `ChunkTokens` tokens whose starts are `Step` tokens apart, each
 * window is decoded back to text and stripped, and empty results are dropped.
 * The tokenizer is foreign code: tokens are opaque numbers and `decode` is a
 * parameter.
 */
module Chunking {
  import opened Util
  import opened Strings

  type Token = nat

  const ChunkTokens: nat := 400
  const ChunkOverlap: nat := 60
  /** `max(1, CHUNK_TOKENS - CHUNK_OVERLAP)`: the loop always advances. */
  const Step: nat := Max(1, ChunkTokens - ChunkOverlap)

  /** Ceiling of `a / b` for positive `b`. */
  function CeilDiv(a: nat, b: nat): nat
    requires b > 0
  {
    (a + b - 1) / b
  }

  /** The windows the source loop takes when its counter starts at `i`:
      `tokens[i : i + CHUNK_TOKENS]`, then `i += Step`, while `i < len(tokens)`. */
  function WindowsFrom(tokens: seq<Token>, i: nat): (ws: seq<seq<Token>>)
    ensures ws == [] <==> i >= |tokens|
    ensures forall k :: 0 <= k < |ws| ==> 0 < |ws[k]| <= ChunkTokens
    decreases |tokens| - i
  {
    if i >= |tokens| then []
    else [tokens[i..Min(i + ChunkTokens, |tokens|)]] + WindowsFrom(tokens, i + Step)
  }

  /** All raw token windows of a token sequence. */
  function Windows(tokens: seq<Token>): seq<seq<Token>>
  {
    WindowsFrom(tokens, 0)
  }

  /** The loop started at `i` takes the ceiling of the remaining length
      over `Step` windows. */
  lemma {:induction false} WindowsFromCount(tokens: seq<Token>, i: nat)
    ensures |WindowsFrom(tokens, i)| == if i >= |tokens| then 0 else CeilDiv(|tokens| - i, Step)
    decreases |tokens| - i
  {
    if i < |tokens| {
      WindowsFromCount(tokens, i + Step);
      var m := |tokens| - i;
      if m <= Step {
        assert CeilDiv(m, Step) == 1;
      } else {
        assert CeilDiv(m, Step) == 1 + CeilDiv(m - Step, Step);
      }
    }
  }

  /** Window `k` of the loop started at `i` is the slice of at most
      `ChunkTokens` tokens from `i + k * Step`. */
  lemma {:induction false} WindowsFromAt(tokens: seq<Token>, i: nat, k: nat)
    requires k < |WindowsFrom(tokens, i)|
    ensures i + k * Step < |tokens|
    ensures WindowsFrom(tokens, i)[k] == tokens[i + k * Step..Min(i + k * Step + ChunkTokens, |tokens|)]
    decreases k
  {
    if k > 0 {
      WindowsFromAt(tokens, i + Step, k - 1);
      assert (i + Step) + (k - 1) * Step == i + k * Step;
    }
  }

  /** The raw windows are exactly `tokens[k*Step : k*Step + ChunkTokens]` for
      `k = 0, 1, ...` while `k*Step < len(tokens)`: there are `ceil(n/Step)` of
      them, none empty, none longer than `ChunkTokens`, and no start below `n`
      is skipped. */
  lemma WindowsShape(tokens: seq<Token>)
    ensures |Windows(tokens)| == CeilDiv(|tokens|, Step)
    ensures tokens == [] <==> Windows(tokens) == []
    ensures |Windows(tokens)| * Step >= |tokens|
    ensures forall k :: 0 <= k < |Windows(tokens)| ==>
              k * Step < |tokens| &&
              Windows(tokens)[k] == tokens[k * Step..Min(k * Step + ChunkTokens, |tokens|)] &&
              0 < |Windows(tokens)[k]| <= ChunkTokens
  {
    WindowsFromCount(tokens, 0);
    var ws := Windows(tokens);
    forall k | 0 <= k < |ws|
      ensures k * Step < |tokens|
      ensures ws[k] == tokens[k * Step..Min(k * Step + ChunkTokens, |tokens|)]
      ensures 0 < |ws[k]| <= ChunkTokens
    {
      WindowsFromAt(tokens, 0, k);
    }
  }

  /** Every token index lies in some window: token `p` sits at offset
      `p % Step` of window `p / Step`. */
  lemma WindowsCover(tokens: seq<Token>, p: nat)
    requires p < |tokens|
    ensures p / Step < |Windows(tokens)|
    ensures (p / Step) * Step <= p
    ensures p - (p / Step) * Step < |Windows(tokens)[p / Step]|
    ensures Windows(tokens)[p / Step][p - (p / Step) * Step] == tokens[p]
  {
    WindowsShape(tokens);
    var k := p / Step;
    assert k * Step <= p < k * Step + Step;
    assert k < CeilDiv(|tokens|, Step);
  }

  /** A full-length window is never the last one, and it shares exactly its
      last `ChunkOverlap` tokens with the next window, as the token positions
      `[(k+1)*Step, k*Step + ChunkTokens)`. */
  lemma ConsecutiveOverlap(tokens: seq<Token>, k: nat)
    requires k < |Windows(tokens)| && |Windows(tokens)[k]| == ChunkTokens
    ensures k + 1 < |Windows(tokens)|
    ensures k * Step + ChunkTokens - (k + 1) * Step == ChunkOverlap
    ensures |Windows(tokens)[k + 1]| >= ChunkOverlap
    ensures Windows(tokens)[k][Step..] == Windows(tokens)[k + 1][..ChunkOverlap]
  {
    WindowsShape(tokens);
    var n := |tokens|;
    assert k * Step + ChunkTokens <= n;
    assert (k + 1) * Step < n;
    assert k + 1 < CeilDiv(n, Step);
    var next := Windows(tokens)[k + 1];
    assert next == tokens[(k + 1) * Step..Min((k + 1) * Step + ChunkTokens, n)];
  }

  /** When a window already reaches the end of the tokens but another window
      follows it, that next window repeats the tail of the previous one: it
      adds no token of its own (for example 400 tokens give two windows, the
      second being tokens 340..400 again). A window shorter than
      `ChunkTokens` always reaches the end, so this covers every short window
      that is not the last. */
  lemma TrailingWindowRepeats(tokens: seq<Token>, k: nat)
    requires k + 1 < |Windows(tokens)|
    requires k * Step + ChunkTokens >= |tokens|
    ensures Step < |Windows(tokens)[k]|
    ensures Windows(tokens)[k + 1] == Windows(tokens)[k][Step..]
  {
    WindowsShape(tokens);
    assert (k + 1) * Step < |tokens|;
  }

  /** Decoding of every raw window, in order. */
  function DecodeAll(ws: seq<seq<Token>>, decode: seq<Token> -> string): (raws: seq<string>)
    ensures |raws| == |ws|
    ensures forall k :: 0 <= k < |ws| ==> raws[k] == decode(ws[k])
  {
    seq(|ws|, k requires 0 <= k < |ws| => decode(ws[k]))
  }

  /** Every decoded window, stripped. */
  function StripAll(raws: seq<string>): (cs: seq<string>)
    ensures |cs| == |raws|
    ensures forall k :: 0 <= k < |raws| ==> cs[k] == Strip(raws[k])
  {
    seq(|raws|, k requires 0 <= k < |raws| => Strip(raws[k]))
  }

  /** The non-empty entries of `cs`, in order: the `if c.strip()` filter. */
  function NonEmpty(cs: seq<string>): (r: seq<string>)
    ensures |r| <= |cs|
    ensures forall m :: 0 <= m < |r| ==> r[m] != []
  {
    if cs == [] then []
    else NonEmpty(cs[..|cs| - 1]) + (if cs[|cs| - 1] != [] then [cs[|cs| - 1]] else [])
  }

  /** Positions in `cs` of the entries `NonEmpty` retains, in increasing order. */
  function KeptPositions(cs: seq<string>): (ps: seq<nat>)
    ensures forall m :: 0 <= m < |ps| ==> ps[m] < |cs|
  {
    if cs == [] then []
    else KeptPositions(cs[..|cs| - 1]) + (if cs[|cs| - 1] != [] then [|cs| - 1] else [])
  }

  /** Kept positions are strictly increasing, so chunks keep the order of
      their windows. */
  lemma {:induction false} KeptPositionsIncrease(cs: seq<string>, m: nat, m': nat)
    requires m < m' < |KeptPositions(cs)|
    ensures KeptPositions(cs)[m] < KeptPositions(cs)[m']
  {
    var init := cs[..|cs| - 1];
    var p := KeptPositions(init);
    var tail: seq<nat> := if cs[|cs| - 1] != [] then [|cs| - 1] else [];
    assert KeptPositions(cs) == p + tail;
    if m' < |p| {
      KeptPositionsIncrease(init, m, m');
      assert (p + tail)[m] == p[m] && (p + tail)[m'] == p[m'];
    } else {
      assert (p + tail)[m] == p[m] < |init|;
    }
  }

  /** One kept position per entry `NonEmpty` returns. */
  lemma {:induction false} KeptCount(cs: seq<string>)
    ensures |KeptPositions(cs)| == |NonEmpty(cs)|
  {
    if cs != [] {
      KeptCount(cs[..|cs| - 1]);
    }
  }

  /** The `m`-th entry `NonEmpty` returns is the entry at the `m`-th kept
      position. */
  lemma {:induction false} NonEmptyAt(cs: seq<string>, m: nat)
    requires m < |NonEmpty(cs)|
    ensures m < |KeptPositions(cs)|
    ensures NonEmpty(cs)[m] == cs[KeptPositions(cs)[m]]
  {
    KeptCount(cs);
    var init := cs[..|cs| - 1];
    if m < |NonEmpty(init)| {
      NonEmptyAt(init, m);
      KeptCount(init);
      assert NonEmpty(cs)[m] == NonEmpty(init)[m];
      assert KeptPositions(cs)[m] == KeptPositions(init)[m];
    }
  }

  /** Every non-empty entry is kept. */
  lemma {:induction false} NonEmptyIsKept(cs: seq<string>, k: nat)
    requires k < |cs| && cs[k] != []
    ensures k in KeptPositions(cs)
  {
    var n := |cs|;
    var init := cs[..n - 1];
    var p := KeptPositions(init);
    var tail: seq<nat> := if cs[n - 1] != [] then [n - 1] else [];
    assert KeptPositions(cs) == p + tail;
    if k < n - 1 {
      NonEmptyIsKept(init, k);
      var m :| 0 <= m < |p| && p[m] == k;
      assert (p + tail)[m] == k;
    } else {
      assert (p + tail)[|p|] == k;
    }
  }

  /** A position is kept exactly when its entry is non-empty. */
  lemma KeptExactly(cs: seq<string>, k: nat)
    requires k < |cs|
    ensures k in KeptPositions(cs) <==> cs[k] != []
  {
    if cs[k] != [] {
      NonEmptyIsKept(cs, k);
    } else if k in KeptPositions(cs) {
      KeptCount(cs);
      var m :| 0 <= m < |KeptPositions(cs)| && KeptPositions(cs)[m] == k;
      NonEmptyAt(cs, m);
      assert false;
    }
  }

  /** The stripped decoded windows of a token sequence. */
  function StrippedWindows(tokens: seq<Token>, decode: seq<Token> -> string): seq<string>
  {
    StripAll(DecodeAll(Windows(tokens), decode))
  }

  /** The chunks of a token sequence: `[c.strip() for c in chunks if
      c.strip()]` over its decoded windows. */
  function Chunks(tokens: seq<Token>, decode: seq<Token> -> string): seq<string>
  {
    NonEmpty(StrippedWindows(tokens, decode))
  }

  /** `chunk_text` as a function of the text, for a given tokenizer. */
  function ChunkTextOf(encode: string -> seq<Token>, decode: seq<Token> -> string): string -> seq<string>
  {
    text => Chunks(encode(text), decode)
  }

  /** No tokens, no chunks; otherwise at most one chunk per window. */
  lemma ChunksBound(tokens: seq<Token>, decode: seq<Token> -> string)
    ensures |Chunks(tokens, decode)| <= CeilDiv(|tokens|, Step)
    ensures tokens == [] ==> Chunks(tokens, decode) == []
  {
    WindowsShape(tokens);
  }

  /** Chunk `m` is the stripped decoding of window `w`, the `m`-th kept
      window; so every chunk is non-empty and stripped, and chunks keep the
      order of their windows. */
  lemma ChunkFromWindow(tokens: seq<Token>, decode: seq<Token> -> string, m: nat)
    requires m < |Chunks(tokens, decode)|
    ensures m < |KeptPositions(StrippedWindows(tokens, decode))|
    ensures var w := KeptPositions(StrippedWindows(tokens, decode))[m];
            w < |Windows(tokens)| &&
            Chunks(tokens, decode)[m] == Strip(decode(Windows(tokens)[w])) &&
            Chunks(tokens, decode)[m] != [] &&
            IsStripped(Chunks(tokens, decode)[m])
  {
    NonEmptyAt(StrippedWindows(tokens, decode), m);
  }

  /** A window contributes a chunk exactly when its decoded text is not all
      whitespace. */
  lemma WindowKeptIff(tokens: seq<Token>, decode: seq<Token> -> string, k: nat)
    requires k < |Windows(tokens)|
    ensures k in KeptPositions(StrippedWindows(tokens, decode))
            <==> !IsBlank(decode(Windows(tokens)[k]))
  {
    KeptExactly(StrippedWindows(tokens, decode), k);
    StripEmptyIffBlank(decode(Windows(tokens)[k]));
  }

  /** The source's window loop, step for step: decode `tokens[i : i +
      CHUNK_TOKENS]` and advance `i` by `max(1, CHUNK_TOKENS - CHUNK_OVERLAP)`
      while `i` is inside the tokens. */
  method DecodeWindows(tokens: seq<Token>, decode: seq<Token> -> string) returns (raws: seq<string>)
    ensures raws == DecodeAll(Windows(tokens), decode)
  {
    raws := [];
    ghost var taken: seq<seq<Token>> := [];
    var i: nat := 0;
    while i < |tokens|
      invariant Windows(tokens) == taken + WindowsFrom(tokens, i)
      invariant raws == DecodeAll(taken, decode)
      decreases |tokens| - i
    {
      var window := tokens[i..Min(i + ChunkTokens, |tokens|)];
      assert WindowsFrom(tokens, i) == [window] + WindowsFrom(tokens, i + Step);
      raws := raws + [decode(window)];
      taken := taken + [window];
      i := i + Max(1, ChunkTokens - ChunkOverlap);
    }
  }

  /** The source's final comprehension: strip every decoded window and keep
      the non-empty results, in order. */
  method KeepNonEmpty(raws: seq<string>) returns (chunks: seq<string>)
    ensures chunks == NonEmpty(StripAll(raws))
  {
    ghost var stripped := StripAll(raws);
    chunks := [];
    var j := 0;
    while j < |raws|
      invariant j <= |raws|
      invariant chunks == NonEmpty(stripped[..j])
    {
      assert stripped[..j + 1][..j] == stripped[..j];
      var c := Strip(raws[j]);
      if c != [] {
        chunks := chunks + [c];
      }
      j := j + 1;
    }
    assert stripped[..j] == stripped;
  }

  /** `chunk_text` on an already-encoded text: the decoded windows, stripped,
      with the empty ones dropped, in window order. */
  method ChunkText(tokens: seq<Token>, decode: seq<Token> -> string) returns (chunks: seq<string>)
    ensures chunks == Chunks(tokens, decode)
    ensures |chunks| <= CeilDiv(|tokens|, Step)
    ensures forall m :: 0 <= m < |chunks| ==> chunks[m] != [] && IsStripped(chunks[m])
  {
    var raws := DecodeWindows(tokens, decode);
    chunks := KeepNonEmpty(raws);
    ChunksBound(tokens, decode);
    forall m | 0 <= m < |chunks|
      ensures chunks[m] != [] && IsStripped(chunks[m])
    {
      ChunkFromWindow(tokens, decode, m);
    }
  }
}
