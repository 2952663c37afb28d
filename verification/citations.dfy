/**
 * The numbering shared by the prompt and the reply of `ask` in
 * server/app.py: `make_prompt` writes hit `i` into the context as a block
 * headed `[i+1] (file)`, and the reply lists hit `i` as the source with
 * `id = i+1`, its file and the first 300 characters of its text.
 */
module Citations {
  import opened Util
  import opened Corpus

  // ----- decimal numerals (Python's `str` of a non-negative int) -----

  predicate IsDigit(c: char)
  {
    '0' <= c <= '9'
  }

  predicate AllDigits(s: string)
  {
    forall k :: 0 <= k < |s| ==> IsDigit(s[k])
  }

  function DigitChar(d: nat): (c: char)
    requires d < 10
    ensures IsDigit(c)
  {
    ('0' as int + d) as char
  }

  function DigitValue(c: char): (d: nat)
    requires IsDigit(c)
    ensures d < 10
  {
    c as int - '0' as int
  }

  /** The decimal numeral of `n`: non-empty and all digits. */
  function Decimal(n: nat): (s: string)
    ensures |s| >= 1 && AllDigits(s)
    decreases n
  {
    if n < 10 then [DigitChar(n)] else Decimal(n / 10) + [DigitChar(n % 10)]
  }

  /** A numeral starts with `0` only when it is the numeral of `0` itself,
      so the numeral of a positive number has no leading zero. */
  lemma {:induction false} DecimalCanonical(n: nat)
    ensures Decimal(n)[0] == '0' <==> n == 0
    ensures |Decimal(n)| > 1 ==> Decimal(n)[0] != '0'
    decreases n
  {
    if n >= 10 {
      DecimalCanonical(n / 10);
      assert Decimal(n)[0] == Decimal(n / 10)[0];
    }
  }

  /** The value a string of digits denotes (the reading of `#` in a `[#]`
      citation). */
  function ParseDecimal(s: string): nat
    requires AllDigits(s)
  {
    if s == [] then 0 else 10 * ParseDecimal(s[..|s| - 1]) + DigitValue(s[|s| - 1])
  }

  /** Reading back a numeral gives the number it was written from. */
  lemma {:induction false} DecimalRoundTrip(n: nat)
    ensures ParseDecimal(Decimal(n)) == n
    decreases n
  {
    if n >= 10 {
      var s := Decimal(n);
      DecimalRoundTrip(n / 10);
      assert s[..|s| - 1] == Decimal(n / 10);
    }
  }

  /** A canonical numeral (non-empty, digits only, no leading zero unless it
      is `0`) is the numeral of the number it denotes. */
  lemma {:induction false} ParseDecimalRoundTrip(s: string)
    requires |s| >= 1 && AllDigits(s) && (|s| > 1 ==> s[0] != '0')
    ensures Decimal(ParseDecimal(s)) == s
  {
    if |s| > 1 {
      var init := s[..|s| - 1];
      var d := DigitValue(s[|s| - 1]);
      ParseDecimalRoundTrip(init);
      PositiveNumeral(init);
      var n := ParseDecimal(s);
      assert n == 10 * ParseDecimal(init) + d;
      assert n / 10 == ParseDecimal(init) && n % 10 == d;
      assert DigitChar(d) == s[|s| - 1];
      assert s == init + [s[|s| - 1]];
    } else {
      assert DigitChar(DigitValue(s[0])) == s[0];
    }
  }

  /** A numeral that does not start with `0` denotes a positive number. */
  lemma {:induction false} PositiveNumeral(s: string)
    requires |s| >= 1 && AllDigits(s) && s[0] != '0'
    ensures ParseDecimal(s) >= 1
  {
    if |s| > 1 {
      PositiveNumeral(s[..|s| - 1]);
    }
  }

  /** Different numbers have different numerals. */
  lemma DecimalInjective(a: nat, b: nat)
    requires Decimal(a) == Decimal(b)
    ensures a == b
  {
    DecimalRoundTrip(a);
    DecimalRoundTrip(b);
  }

  // ----- citation markers and context blocks -----

  /** The marker of hit `i`: `[i+1]`, a bracketed numeral with no leading
      zero. */
  function Marker(i: nat): (m: string)
    ensures |m| >= 3 && m[0] == '[' && m[|m| - 1] == ']'
    ensures IsDigit(m[1]) && m[1] != '0'
  {
    DecimalCanonical(i + 1);
    "[" + Decimal(i + 1) + "]"
  }

  /** The number a `[#]` citation names, when the text between the brackets
      is a canonical numeral. */
  function CitedNumber(m: string): Option<nat>
  {
    if |m| >= 3 && m[0] == '[' && m[|m| - 1] == ']' && AllDigits(m[1..|m| - 1])
       && (|m| > 3 ==> m[1] != '0')
    then Some(ParseDecimal(m[1..|m| - 1]))
    else None
  }

  /** The marker of hit `i` cites number `i + 1`. */
  lemma MarkerCites(i: nat)
    ensures CitedNumber(Marker(i)) == Some(i + 1)
  {
    var mi := Marker(i);
    assert mi[1..|mi| - 1] == Decimal(i + 1);
    DecimalRoundTrip(i + 1);
    DecimalCanonical(i + 1);
  }

  /** A citation of number `i + 1` is the marker of hit `i` and nothing
      else: markers and context positions correspond one to one. */
  lemma CitationIsMarker(m: string, i: nat)
    requires CitedNumber(m) == Some(i + 1)
    ensures m == Marker(i)
  {
    var digits := m[1..|m| - 1];
    ParseDecimalRoundTrip(digits);
    Enclosed(m);
  }

  /** Distinct hits get distinct markers. */
  lemma MarkersDistinct(i: nat, j: nat)
    requires i != j
    ensures Marker(i) != Marker(j)
  {
    MarkerCites(j);
    if Marker(i) == Marker(j) {
      MarkerCites(i);
    }
  }

  /** The context block of hit `i`: `[i+1] (file)` on one line, its text
      below. */
  function Block(i: nat, h: Doc): (b: string)
    ensures |b| == |Marker(i)| + |h.file| + |h.text| + 4
  {
    Marker(i) + " (" + h.file + ")\n" + h.text
  }

  /** A block opens with its marker and ends with its hit's text. */
  lemma BlockShape(i: nat, h: Doc)
    ensures |Block(i, h)| == |Marker(i)| + |h.file| + |h.text| + 4
    ensures Block(i, h)[..|Marker(i)|] == Marker(i)
    ensures Block(i, h)[|Block(i, h)| - |h.text|..] == h.text
  {
    var b := Block(i, h);
    assert b == Marker(i) + (" (" + h.file + ")\n" + h.text);
    assert b == (Marker(i) + " (" + h.file + ")\n") + h.text;
  }

  /** One block per hit, in hit order. */
  function Blocks(hits: seq<Doc>): (bs: seq<string>)
    ensures |bs| == |hits|
    ensures forall i :: 0 <= i < |hits| ==> bs[i] == Block(i, hits[i])
  {
    seq(|hits|, i requires 0 <= i < |hits| => Block(i, hits[i]))
  }

  // ----- joining -----

  /** Python's `sep.join(parts[:n])`. */
  function JoinFirst(sep: string, parts: seq<string>, n: nat): string
    requires n <= |parts|
  {
    if n == 0 then []
    else if n == 1 then parts[0]
    else JoinFirst(sep, parts, n - 1) + sep + parts[n - 1]
  }

  /** Python's `sep.join(parts)`: nothing for no parts, the part itself for
      one, and otherwise every part with one separator between neighbours
      (JoinPart, JoinSeparator). */
  function Join(sep: string, parts: seq<string>): (r: string)
    ensures parts == [] ==> r == []
    ensures |parts| == 1 ==> r == parts[0]
  {
    JoinFirst(sep, parts, |parts|)
  }

  /** Where part `i` starts in `Join(sep, parts)`: after every earlier part
      and its separator. */
  function Offset(sep: string, parts: seq<string>, i: nat): nat
    requires i <= |parts|
  {
    if i == 0 then 0 else Offset(sep, parts, i - 1) + |parts[i - 1]| + |sep|
  }

  /** The join of the first `n` parts ends with part `n - 1`. */
  lemma {:induction false} JoinLength(sep: string, parts: seq<string>, n: nat)
    requires 1 <= n <= |parts|
    ensures |JoinFirst(sep, parts, n)| == Offset(sep, parts, n - 1) + |parts[n - 1]|
  {
    if n > 1 {
      JoinLength(sep, parts, n - 1);
    }
  }

  /** Part `i` sits in the join of the first `n` parts at
      `Offset(sep, parts, i)`. */
  lemma {:induction false} JoinPart(sep: string, parts: seq<string>, n: nat, i: nat)
    requires i < n <= |parts|
    ensures Offset(sep, parts, i) + |parts[i]| <= |JoinFirst(sep, parts, n)|
    ensures JoinFirst(sep, parts, n)[Offset(sep, parts, i)..Offset(sep, parts, i) + |parts[i]|] == parts[i]
  {
    JoinLength(sep, parts, n);
    if n > 1 {
      var left := JoinFirst(sep, parts, n - 1);
      assert JoinFirst(sep, parts, n) == left + (sep + parts[n - 1]);
      JoinLength(sep, parts, n - 1);
      if i < n - 1 {
        JoinPart(sep, parts, n - 1, i);
        var a := Offset(sep, parts, i);
        SliceLeft(left, sep + parts[n - 1], a, a + |parts[i]|);
      } else {
        assert JoinFirst(sep, parts, n) == (left + sep) + parts[n - 1];
        SliceRight(left + sep, parts[n - 1], |left + sep|, |left + sep| + |parts[n - 1]|);
      }
    }
  }

  /** In the join of the first `n` parts, exactly one `sep` stands between
      part `i` and part `i + 1`. */
  lemma {:induction false} JoinSeparator(sep: string, parts: seq<string>, n: nat, i: nat)
    requires i + 1 < n <= |parts|
    ensures Offset(sep, parts, i + 1) <= |JoinFirst(sep, parts, n)|
    ensures JoinFirst(sep, parts, n)[Offset(sep, parts, i) + |parts[i]|..Offset(sep, parts, i + 1)] == sep
  {
    var whole := JoinFirst(sep, parts, n);
    var left := JoinFirst(sep, parts, n - 1);
    var right := sep + parts[n - 1];
    assert whole == left + right;
    JoinLength(sep, parts, n - 1);
    var lo := Offset(sep, parts, i) + |parts[i]|;
    var hi := Offset(sep, parts, i + 1);
    assert hi == lo + |sep|;
    if i + 1 < n - 1 {
      JoinSeparator(sep, parts, n - 1, i);
      assert left[lo..hi] == sep;
      SliceLeft(left, right, lo, hi);
      assert whole[lo..hi] == sep;
    } else {
      assert lo == |left|;
      SliceRight(left, right, lo, hi);
      assert whole[lo..hi] == right[0..|sep|];
      assert right[0..|sep|] == sep;
    }
  }

  /** Part `i` of a joined string keeps its place when text is put around
      the joined string. */
  lemma JoinEmbedded(head: string, sep: string, parts: seq<string>, tail: string, i: nat)
    requires i < |parts|
    ensures var p := |head| + Offset(sep, parts, i);
            p + |parts[i]| <= |head + Join(sep, parts) + tail| &&
            (head + Join(sep, parts) + tail)[p..p + |parts[i]|] == parts[i]
  {
    var a := Offset(sep, parts, i);
    JoinPart(sep, parts, |parts|, i);
    Embedded(head, Join(sep, parts), tail, a, a + |parts[i]|);
  }

  /** So does any prefix of part `i`. */
  lemma JoinEmbeddedPrefix(head: string, sep: string, parts: seq<string>, tail: string, i: nat,
                           pre: string)
    requires i < |parts| && |pre| <= |parts[i]| && parts[i][..|pre|] == pre
    ensures var p := |head| + Offset(sep, parts, i);
            p + |pre| <= |head + Join(sep, parts) + tail| &&
            (head + Join(sep, parts) + tail)[p..p + |pre|] == pre
  {
    JoinEmbedded(head, sep, parts, tail, i);
    SlicePrefix(head + Join(sep, parts) + tail, |head| + Offset(sep, parts, i), parts[i], pre);
  }

  // ----- the prompt -----

  /** `sources_text`: the context blocks separated by blank lines. */
  function SourcesText(hits: seq<Doc>): string
  {
    Join("\n\n", Blocks(hits))
  }

  datatype Role = System | User
  datatype Message = Message(role: Role, content: string)

  /** The fixed prose around the numbered context: the system
      instructions, the labels in front of the question and of the context,
      and the closing instructions. The numbering does not depend on it, so
      it is a parameter. */
  datatype Wording = Wording(system: string, questionLabel: string,
                             contextLabel: string, instructions: string)

  /** The part of the user message in front of the context blocks. */
  function UserHead(w: Wording, question: string): string
  {
    w.questionLabel + question + w.contextLabel
  }

  /** `make_prompt`: a system message with the instructions, then a user
      message with the question, the numbered context and the closing
      instructions. */
  function MakePrompt(w: Wording, question: string, hits: seq<Doc>): (msgs: seq<Message>)
    ensures |msgs| == 2
    ensures msgs[0] == Message(System, w.system)
    ensures msgs[1].role == User
  {
    [Message(System, w.system), Message(User, UserHead(w, question) + SourcesText(hits) + w.instructions)]
  }

  /** The user message opens with the question and ends with the closing
      instructions. */
  lemma PromptFrame(w: Wording, question: string, hits: seq<Doc>)
    ensures var user := MakePrompt(w, question, hits)[1].content;
            |user| >= |UserHead(w, question)| + |w.instructions| &&
            user[..|UserHead(w, question)|] == UserHead(w, question) &&
            user[|user| - |w.instructions|..] == w.instructions
  {
    var user := MakePrompt(w, question, hits)[1].content;
    var head := UserHead(w, question);
    assert user == head + (SourcesText(hits) + w.instructions);
    assert user[..|head|] == head;
    assert user == (head + SourcesText(hits)) + w.instructions;
    assert user[|user| - |w.instructions|..] == w.instructions;
  }

  /** Where hit `i`'s block starts in the user message. */
  function BlockStart(w: Wording, question: string, hits: seq<Doc>, i: nat): nat
    requires i <= |hits|
  {
    |UserHead(w, question)| + Offset("\n\n", Blocks(hits), i)
  }

  /** The user message is the question part, the joined blocks and the
      closing instructions. */
  lemma UserMessage(w: Wording, question: string, hits: seq<Doc>)
    ensures MakePrompt(w, question, hits)[1].content
         == UserHead(w, question) + Join("\n\n", Blocks(hits)) + w.instructions
  {
  }

  /** In the user message, hit `i`'s block sits at `BlockStart`: its marker
      `[i+1]`, then ` (file)` and a line break, then the hit's text. */
  lemma PromptBlock(w: Wording, question: string, hits: seq<Doc>, i: nat)
    requires i < |hits|
    ensures var content := MakePrompt(w, question, hits)[1].content;
            var p := BlockStart(w, question, hits, i);
            p + |Block(i, hits[i])| <= |content| &&
            content[p..p + |Block(i, hits[i])|] == Block(i, hits[i])
  {
    UserMessage(w, question, hits);
    JoinEmbedded(UserHead(w, question), "\n\n", Blocks(hits), w.instructions, i);
  }

  /** So the user message shows the marker `[i+1]` exactly where hit `i`'s
      block starts. */
  lemma PromptMarker(w: Wording, question: string, hits: seq<Doc>, i: nat)
    requires i < |hits|
    ensures var content := MakePrompt(w, question, hits)[1].content;
            var p := BlockStart(w, question, hits, i);
            p + |Marker(i)| <= |content| &&
            content[p..p + |Marker(i)|] == Marker(i)
  {
    var bs := Blocks(hits);
    BlockShape(i, hits[i]);
    UserMessage(w, question, hits);
    JoinEmbeddedPrefix(UserHead(w, question), "\n\n", bs, w.instructions, i, Marker(i));
  }

  // ----- the sources of the reply -----

  /** The number of characters of a hit shown as its preview. */
  const PreviewLength: nat := 300

  /** `t[:300]`. */
  function Preview(t: string): (p: string)
    ensures |p| == Min(PreviewLength, |t|)
    ensures p == t[..|p|]
    ensures |t| <= PreviewLength ==> p == t
  {
    t[..Min(PreviewLength, |t|)]
  }

  datatype Source = Source(id: nat, file: string, preview: string)

  /** `{"id": i + 1, "file": s, "preview": t[:300]}` for hit `i`. */
  function Sources(hits: seq<Doc>): (srcs: seq<Source>)
    ensures |srcs| == |hits|
    ensures forall i :: 0 <= i < |hits| ==>
              srcs[i] == Source(i + 1, hits[i].file, Preview(hits[i].text))
  {
    seq(|hits|, i requires 0 <= i < |hits| => Source(i + 1, hits[i].file, Preview(hits[i].text)))
  }

  /** The prompt and the reply agree: the block a `[k]` citation points at
      and the source with `id == k` describe the same hit. The block's
      marker cites exactly the source's id, names the source's file, and
      ends with the full text of which the source shows the preview. */
  lemma CitationsAlign(hits: seq<Doc>, i: nat)
    requires i < |hits|
    ensures var src := Sources(hits)[i];
            var b := Block(i, hits[i]);
            CitedNumber(Marker(i)) == Some(src.id) &&
            b == Marker(i) + " (" + src.file + ")\n" + hits[i].text &&
            src.preview == hits[i].text[..|src.preview|]
  {
    MarkerCites(i);
  }

  /** A citation `[k]` with `1 <= k <= |hits|` resolves to exactly one
      source, the one at position `k - 1`, and to no other block. */
  lemma CitationResolves(hits: seq<Doc>, m: string, k: nat)
    requires CitedNumber(m) == Some(k) && 1 <= k <= |hits|
    ensures Sources(hits)[k - 1].id == k
    ensures m == Marker(k - 1)
    ensures forall j :: 0 <= j < |hits| && j != k - 1 ==> Sources(hits)[j].id != k && Marker(j) != m
  {
    CitationIsMarker(m, k - 1);
    forall j | 0 <= j < |hits| && j != k - 1
      ensures Marker(j) != m
    {
      MarkersDistinct(j, k - 1);
    }
  }
}
