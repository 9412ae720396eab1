/**
 The summarisation endpoint (backend/app/routers/summarization.py). It does
 not call the model yet: it answers with a placeholder that names the style
 and the length of the text.
 */
module Summarization {
  import opened Text
  import opened Models

  /** The placeholder summary for a text of `words` words. */
  function PlaceholderSummary(style: string, words: nat): string {
    "[Summary placeholder - Style: " + style + "]\n\nOriginal text had " + NatToString(words) + " words."
  }

  /** `summarize_text`: the text's word count, the placeholder naming the
      style and that count, the placeholder's own word count and the style
      echoed back unchanged. */
  function SummarizeText(request: SummarizationRequest): (r: SummarizationResult)
    ensures r.originalWordCount == WordCount(request.text)
    ensures r.style == request.style
    ensures r.summary == PlaceholderSummary(request.style, r.originalWordCount)
    ensures r.summaryWordCount == 9 + WordCount(request.style + "]")
    ensures NoSpace(request.style) ==> r.summaryWordCount == 10
  {
    var original := WordCount(request.text);
    var summary := PlaceholderSummary(request.style, original);
    SummaryWords(request.style, original);
    SummarizationResult(summary, original, WordCount(summary), request.style)
  }

  const Head: seq<string> := ["[Summary", "placeholder", "-", "Style:"]

  function Tail(n: string): seq<string> {
    ["Original", "text", "had", n, "words."]
  }

  /** Four fixed words, the style with its closing bracket, and five more
      after the line break ("Original text had N words."). */
  lemma SummaryWords(style: string, words: nat)
    ensures WordCount(PlaceholderSummary(style, words)) == 9 + WordCount(style + "]")
    ensures NoSpace(style) ==> WordCount(PlaceholderSummary(style, words)) == 10
  {
    var n := NatToString(words);
    SummaryShape(style, n, PlaceholderSummary(style, words));
    NatToStringIsWord(words);
    HeadAndTailWords(n);
    ThreeParts(Join(" ", Head), style + "]", Join(" ", Tail(n)));
    BracketWords(style);
  }

  /** The placeholder is the head, a space, the bracketed style, a blank line
      and the tail. */
  lemma SummaryShape(style: string, n: string, summary: string)
    requires summary == "[Summary placeholder - Style: " + style + "]\n\nOriginal text had " + n + " words."
    ensures summary == Join(" ", Head) + [' '] + ((style + "]") + ['\n'] + ("\n" + Join(" ", Tail(n))))
  {
    var h, t := Join(" ", Head), Join(" ", Tail(n));
    HeadSpace();
    TailPart(n);
    Regroup(h + [' '], style, "]\n\nOriginal text had ", n, " words.");
    Regroup(h + [' '], style, "]", ['\n'], "\n" + t);
  }

  lemma HeadSpace()
    ensures "[Summary placeholder - Style: " == Join(" ", Head) + [' ']
  {
    HeadJoin();
  }

  lemma TailPart(n: string)
    ensures "]\n\nOriginal text had " + n + " words." == "]" + ['\n'] + ("\n" + Join(" ", Tail(n)))
  {
    TailJoin(n);
  }

  lemma Regroup(a: string, b: string, c: string, d: string, e: string)
    ensures a + b + c + d + e == a + b + (c + d + e)
    ensures a + b + (c + d + e) == a + ((b + c) + d + e)
  {
  }

  /** Words of `h x\n\nt`: those of the three parts. */
  lemma ThreeParts(h: string, x: string, t: string)
    ensures WordCount(h + [' '] + (x + ['\n'] + ("\n" + t))) == WordCount(h) + WordCount(x) + WordCount(t)
  {
    CountAround(h, ' ', x + ['\n'] + ("\n" + t));
    CountAround(x, '\n', "\n" + t);
    WordsAfterSpaces("\n", t);
  }

  lemma HeadAndTailWords(n: string)
    requires IsWord(n)
    ensures WordCount(Join(" ", Head)) == 4 && WordCount(Join(" ", Tail(n))) == 5
  {
    HeadWords();
    TailWords(n);
  }

  lemma HeadWords()
    ensures WordCount(Join(" ", Head)) == 4
  {
    var h := Head;
    assert forall i :: 0 <= i < |h| ==> IsWord(h[i]) by {
      FixedWords();
      assert h[0] == "[Summary" && h[1] == "placeholder" && h[2] == "-" && h[3] == "Style:";
    }
    WordsOfJoinedWords(h);
  }

  lemma TailWords(n: string)
    requires IsWord(n)
    ensures WordCount(Join(" ", Tail(n))) == 5
  {
    var t := Tail(n);
    assert forall i :: 0 <= i < |t| ==> IsWord(t[i]) by {
      FixedWords();
      assert t[0] == "Original" && t[1] == "text" && t[2] == "had" && t[3] == n && t[4] == "words.";
    }
    WordsOfJoinedWords(t);
  }

  lemma HeadJoin()
    ensures Join(" ", Head) == "[Summary placeholder - Style:"
  {
    var head := Head;
    assert head[..1] == ["[Summary"];
    JoinStep(" ", head, 1);
    assert Join(" ", head[..2]) == "[Summary placeholder";
    JoinStep(" ", head, 2);
    assert Join(" ", head[..3]) == "[Summary placeholder -";
    JoinStep(" ", head, 3);
    assert head[..4] == head;
  }

  lemma TailJoin(n: string)
    ensures Join(" ", Tail(n)) == "Original text had " + n + " words."
  {
    var tail := Tail(n);
    assert tail[..1] == ["Original"];
    JoinStep(" ", tail, 1);
    assert Join(" ", tail[..2]) == "Original text";
    JoinStep(" ", tail, 2);
    assert Join(" ", tail[..3]) == "Original text had";
    JoinStep(" ", tail, 3);
    assert Join(" ", tail[..4]) == "Original text had " + n;
    JoinStep(" ", tail, 4);
    assert tail[..5] == tail;
  }

  lemma FixedWords()
    ensures IsWord("[Summary") && IsWord("placeholder") && IsWord("-") && IsWord("Style:")
    ensures IsWord("Original") && IsWord("text") && IsWord("had") && IsWord("words.")
  {
    PrintableWord("[Summary");
    PrintableWord("placeholder");
    PrintableWord("-");
    PrintableWord("Style:");
    PrintableWord("Original");
    PrintableWord("text");
    PrintableWord("had");
    PrintableWord("words.");
  }

  /** Requests that differ only in their text's wording, not its word count,
      get the same answer; the prompt and the requested length play no
      part. */
  lemma SummaryDependsOnCountAndStyle(a: SummarizationRequest, b: SummarizationRequest)
    requires a.style == b.style && WordCount(a.text) == WordCount(b.text)
    ensures SummarizeText(a) == SummarizeText(b)
  {
  }

  /** The count in the placeholder reads back as the text's word count. */
  lemma SummaryNamesTheCount(request: SummarizationRequest)
    ensures var r := SummarizeText(request);
      var prefix := "[Summary placeholder - Style: " + request.style + "]\n\nOriginal text had ";
      var numeral := r.summary[|prefix|..|r.summary| - |" words."|];
      AllDigits(numeral) && DecimalValue(numeral) == r.originalWordCount
  {
    var r := SummarizeText(request);
    var prefix := "[Summary placeholder - Style: " + request.style + "]\n\nOriginal text had ";
    var n := NatToString(r.originalWordCount);
    assert r.summary == prefix + n + " words.";
    assert r.summary[|prefix|..|r.summary| - |" words."|] == n;
  }
}
