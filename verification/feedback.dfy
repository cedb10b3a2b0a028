/** ml-service/utils/feedback.py, `generate_feedback`: the rubric the analysis
    service scores a submission's text with. Four component scores (length 25,
    structure 20, keywords 35, vocabulary 20) add up to a raw score out of 100,
    which is scaled to the assignment's maximum, clamped, and graded. Python's
    arithmetic is taken exactly: ratios are compared by cross-multiplication
    and `round` rounds the exact quotient half to even. */
module Feedback {
  import opened Text

  // ---------------------------------------------------------------------
  // Python text primitives

  /** The characters Python's `str.isspace` accepts, the ones `split()` and `strip()` use. */
  predicate IsPySpace(c: char) {
    || c == '\t' || c == '\n' || c == '\U{000B}' || c == '\U{000C}' || c == '\r'
    || ('\U{001C}' <= c <= '\U{001F}') || c == ' ' || c == '\U{0085}' || c == '\U{00A0}'
    || c == '\U{1680}' || ('\U{2000}' <= c <= '\U{200A}') || c == '\U{2028}' || c == '\U{2029}'
    || c == '\U{202F}' || c == '\U{205F}' || c == '\U{3000}'
  }

  /** `s.strip()`. */
  function PyStrip(s: string): string {
    Strip(s, IsPySpace)
  }

  /** `not text or not text.strip()`. */
  predicate IsBlank(text: string) {
    PyStrip(text) == []
  }

  /** `text.split()`: one word per place where a run of non-whitespace begins,
      each word non-empty and free of whitespace. */
  function Words(text: string): (r: seq<string>)
    ensures |r| == RunStarts(text, IsPySpace, true)
    ensures forall i :: 0 <= i < |r| ==> IsField(r[i], IsPySpace)
  {
    FieldsCount(text, IsPySpace);
    FieldsAreFields(text, IsPySpace);
    Fields(text, IsPySpace)
  }

  /** A text has a word exactly when it is not blank. */
  lemma WordsIffNotBlank(text: string)
    ensures |Words(text)| >= 1 <==> !IsBlank(text)
  {
    NoFieldsIff(text, IsPySpace);
    StripEmptyIff(text, IsPySpace);
  }

  /** `text.replace('!', '.').replace('?', '.')`. */
  function Periods(text: string): (r: string)
    ensures |r| == |text|
    ensures forall k :: 0 <= k < |r| ==> r[k] != '!' && r[k] != '?'
    ensures forall k :: 0 <= k < |r| && text[k] != '!' && text[k] != '?' ==> r[k] == text[k]
    ensures forall k :: 0 <= k < |r| && (text[k] == '!' || text[k] == '?') ==> r[k] == '.'
  {
    seq(|text|, k requires 0 <= k < |text| => if text[k] == '!' || text[k] == '?' then '.' else text[k])
  }

  /** The sentences: the non-blank pieces between `.`, `!` and `?`, stripped. */
  function Sentences(text: string): seq<string> {
    StripNonEmpty(SplitOn(Periods(text), "."), IsPySpace)
  }

  const ParagraphBreak := "\n\n"

  /** The paragraphs: the non-blank pieces between blank lines, stripped. */
  function Paragraphs(text: string): seq<string> {
    StripNonEmpty(SplitOn(text, ParagraphBreak), IsPySpace)
  }

  /** A text has a paragraph exactly when it is not blank. */
  lemma ParagraphsIffNotBlank(text: string)
    ensures |Paragraphs(text)| >= 1 <==> !IsBlank(text)
  {
    JoinSplitOn(text, ParagraphBreak);
    assert All(ParagraphBreak, IsPySpace);
    JoinStripNonEmpty(SplitOn(text, ParagraphBreak), ParagraphBreak, IsPySpace);
    StripEmptyIff(text, IsPySpace);
  }

  // ---------------------------------------------------------------------
  // Python's round

  /** Python's `round(num / den)`: the integer nearest to the quotient, a tie
      going to the even neighbour. */
  function Round(num: int, den: int): (r: int)
    requires den > 0
    ensures -den <= 2 * (num - r * den) <= den
    ensures 2 * (num - r * den) == den || 2 * (num - r * den) == -den ==> r % 2 == 0
  {
    var q, rem := num / den, num % den;
    assert num - q * den == rem;
    if 2 * rem > den || (2 * rem == den && q % 2 != 0) then
      assert num - (q + 1) * den == rem - den;
      q + 1
    else
      q
  }

  /** Rounding never leaves the integer bounds the quotient lies within. */
  lemma RoundWithin(num: int, den: int, lo: int, hi: int)
    requires den > 0 && lo * den <= num <= hi * den
    ensures lo <= Round(num, den) <= hi
  {
    DivWithin(num, den, lo, hi);
  }

  /** Floor division keeps the integer bounds of the quotient; reaching the upper one leaves no remainder. */
  lemma DivWithin(num: int, den: int, lo: int, hi: int)
    requires den > 0 && lo * den <= num <= hi * den
    ensures lo <= num / den <= hi
    ensures num / den == hi ==> num % den == 0
  {
    var q := num / den;
    assert num == q * den + num % den;
    MulBounds(q - lo, den);
    assert (q - lo) * den == q * den - lo * den;
    MulBounds(q - hi, den);
    assert (q - hi) * den == q * den - hi * den;
  }

  /** A non-zero integer multiple of `den` is at least `den` away from zero. */
  lemma MulBounds(d: int, den: int)
    requires den > 0
    ensures d >= 1 ==> d * den >= den
    ensures d <= -1 ==> d * den <= -den
  {
  }

  /** A larger numerator never rounds lower. */
  lemma RoundMonotone(num1: int, num2: int, den: int)
    requires den > 0 && num1 <= num2
    ensures Round(num1, den) <= Round(num2, den)
  {
    DivMonotone(num1, num2, den);
  }

  /** Floor division by a positive number is monotone; on an equal quotient the remainders are ordered. */
  lemma DivMonotone(a: int, b: int, den: int)
    requires den > 0 && a <= b
    ensures a / den <= b / den
    ensures a / den == b / den ==> a % den <= b % den
  {
    var qa, qb := a / den, b / den;
    assert a == qa * den + a % den;
    assert b == qb * den + b % den;
    MulBounds(qa - qb, den);
    assert (qa - qb) * den == qa * den - qb * den;
  }

  // ---------------------------------------------------------------------
  // The four components

  const ExcellentLength := "\U{2713} Excellent length and depth of coverage."
  const GoodLength := "Good length but could be expanded further."
  const ShortLength := "\U{26A0} Response is short. Aim for at least 300 words."
  const BriefLength := "\U{2717} Response is too brief. Add more detail."

  /** Length (25 points), by word count: 500 and more, 300, 150, fewer. */
  function LengthScore(wordCount: nat): (r: int)
    ensures 4 <= r <= 25
  {
    if wordCount >= 500 then 25 else if wordCount >= 300 then 18 else if wordCount >= 150 then 10 else 4
  }

  function LengthPoint(wordCount: nat): string {
    if wordCount >= 500 then ExcellentLength
    else if wordCount >= 300 then GoodLength
    else if wordCount >= 150 then ShortLength
    else BriefLength
  }

  /** More words never lower the length score. */
  lemma LengthScoreMonotone(a: nat, b: nat)
    requires a <= b
    ensures LengthScore(a) <= LengthScore(b)
  {
  }

  /** Paragraph part of the structure score: three and more, two, fewer. */
  function ParagraphScore(paragraphCount: nat): (r: int)
    ensures r == 0 || r == 6 || r == 10
  {
    if paragraphCount >= 3 then 10 else if paragraphCount >= 2 then 6 else 0
  }

  function ParagraphPoint(paragraphCount: nat): string {
    if paragraphCount >= 3 then "\U{2713} Good paragraph structure."
    else if paragraphCount >= 2 then "Consider using more paragraphs."
    else "\U{2717} Use multiple paragraphs for better structure."
  }

  /** `10 <= word_count / max(sentence_count, 1) <= 25`, compared exactly. */
  predicate BalancedSentences(wordCount: nat, sentenceCount: nat) {
    var d := if sentenceCount >= 1 then sentenceCount else 1;
    10 * d <= wordCount <= 25 * d
  }

  /** Sentence part of the structure score: 10 for an average of 10 to 25 words per sentence, else 5. */
  function SentenceScore(wordCount: nat, sentenceCount: nat): (r: int)
    ensures r == 10 <==> BalancedSentences(wordCount, sentenceCount)
    ensures r == 5 || r == 10
  {
    if BalancedSentences(wordCount, sentenceCount) then 10 else 5
  }

  function SentencePoint(wordCount: nat, sentenceCount: nat): string {
    if BalancedSentences(wordCount, sentenceCount) then "\U{2713} Good sentence length balance."
    else "Try to vary your sentence lengths."
  }

  /** Structure (20 points): the paragraph part plus the sentence part. */
  function StructureScore(wordCount: nat, sentenceCount: nat, paragraphCount: nat): (r: int)
    ensures 5 <= r <= 20
    ensures r == 20 <==> paragraphCount >= 3 && BalancedSentences(wordCount, sentenceCount)
  {
    ParagraphScore(paragraphCount) + SentenceScore(wordCount, sentenceCount)
  }

  /** `kw.lower() in text.lower()`: the lower-cased keyword occurs as a block
      of the lower-cased text. */
  predicate Mentions(text: string, kw: string)
    ensures Mentions(text, kw) <==> exists i :: BlockAt(Lower(text), Lower(kw), i)
  {
    ContainsIff(Lower(text), Lower(kw));
    Contains(Lower(text), Lower(kw))
  }

  /** The keywords the text mentions (`mentioned`) or does not mention, in their order. */
  function Which(keywords: seq<string>, text: string, mentioned: bool): (r: seq<string>)
    ensures |r| <= |keywords|
    ensures forall kw :: kw in r <==> kw in keywords && Mentions(text, kw) == mentioned
    ensures forall kw :: multiset(r)[kw] == if Mentions(text, kw) == mentioned then multiset(keywords)[kw] else 0
  {
    if keywords == [] then []
    else
      assert multiset(keywords) == multiset{keywords[0]} + multiset(keywords[1..]) by {
        assert keywords == [keywords[0]] + keywords[1..];
      }
      (if Mentions(text, keywords[0]) == mentioned then [keywords[0]] else []) + Which(keywords[1..], text, mentioned)
  }

  /** `matched`. */
  function Matched(keywords: seq<string>, text: string): seq<string> {
    Which(keywords, text, true)
  }

  /** `missed`. */
  function Missed(keywords: seq<string>, text: string): seq<string> {
    Which(keywords, text, false)
  }

  /** Every keyword is either matched or missed, so the two counts add up to the number of keywords. */
  lemma {:induction false} MatchedAndMissed(keywords: seq<string>, text: string)
    ensures |Matched(keywords, text)| + |Missed(keywords, text)| == |keywords|
  {
    if keywords != [] {
      MatchedAndMissed(keywords[1..], text);
    }
  }

  /** Keywords (35 points): `round(35 * matched / total)`, or 20 when the assignment has no keywords. */
  function KeywordScore(matched: nat, total: nat): (r: int)
    requires matched <= total
    ensures total == 0 ==> r == 20
    ensures total > 0 ==> 0 <= r <= 35
    ensures total > 0 && matched == total ==> r == 35
    ensures total > 0 && matched == 0 ==> r == 0
    ensures total > 0 ==> 2 * (35 * matched - r * total) <= total && 2 * (r * total - 35 * matched) <= total
  {
    if total == 0 then 20
    else
      var r := Round(35 * matched, total);
      assert 0 <= r <= 35 && (matched == total ==> r == 35) && (matched == 0 ==> r == 0) by {
        RoundWithin(35 * matched, total, 0, 35);
        if matched == total {
          RoundExact(35, total);
        }
        if matched == 0 {
          RoundExact(0, total);
        }
      }
      r
  }

  /** More matched keywords (out of the same list) never lower the keyword score. */
  lemma KeywordScoreMonotone(m1: nat, m2: nat, total: nat)
    requires m1 <= m2 <= total
    ensures KeywordScore(m1, total) <= KeywordScore(m2, total)
  {
    if total > 0 {
      RoundMonotone(35 * m1, 35 * m2, total);
    }
  }

  /** The first `n` elements of `xs` (`xs[:n]`). */
  function Take(xs: seq<string>, n: nat): (r: seq<string>)
    ensures |r| <= n && |r| <= |xs| && r == xs[..|r|]
    ensures |xs| <= n ==> r == xs
    ensures |r| == if |xs| <= n then |xs| else n
  {
    if |xs| <= n then xs else xs[..n]
  }

  /** The keyword feedback point; there is none when the assignment has no keywords. */
  function KeywordPoints(keywords: seq<string>, text: string): (r: seq<string>)
    ensures |r| == (if keywords == [] then 0 else 1)
  {
    if keywords == [] then []
    else
      var m, n := |Matched(keywords, text)|, |keywords|;
      var missed := Missed(keywords, text);
      if 5 * m >= 4 * n then
        ["\U{2713} Excellent keyword coverage (" + NatToString(m) + "/" + NatToString(n) + ")."]
      else if 2 * m >= n then
        ["Good coverage. Also consider: " + Join(Take(missed, 3), ", ") + "."]
      else
        ["\U{26A0} Missing key topics: " + Join(Take(missed, 5), ", ") + "."]
  }

  /** The characters `strip('.,!?;:')` removes. */
  predicate IsPunctuation(c: char) {
    c == '.' || c == ',' || c == '!' || c == '?' || c == ';' || c == ':'
  }

  /** `w.lower().strip('.,!?;:')`. */
  function Normalised(w: string): string {
    Strip(Lower(w), IsPunctuation)
  }

  /** The normalised form of every word, in order. */
  function NormalisedWords(words: seq<string>): (r: seq<string>)
    ensures |r| == |words|
    ensures forall i :: 0 <= i < |words| ==> r[i] == Normalised(words[i])
  {
    seq(|words|, i requires 0 <= i < |words| => Normalised(words[i]))
  }

  /** The distinct elements of `s`: never more of them than elements. */
  function Elements(s: seq<string>): (u: set<string>)
    ensures forall x :: x in u <==> x in s
    ensures |u| <= |s|
  {
    if s == [] then {} else {s[0]} + Elements(s[1..])
  }

  /** `set(w.lower().strip('.,!?;:') for w in words)`. */
  function UniqueWords(words: seq<string>): (u: set<string>)
    ensures forall x :: x in u <==> x in NormalisedWords(words)
    ensures |u| <= |words|
  {
    Elements(NormalisedWords(words))
  }

  /** Vocabulary (20 points), by unique-word ratio: 0.6 and more, 0.4, less. */
  function VocabularyScore(unique: nat, wordCount: nat): (r: int)
    ensures r == 7 || r == 13 || r == 20
  {
    var d := if wordCount >= 1 then wordCount else 1;
    if 5 * unique >= 3 * d then 20 else if 5 * unique >= 2 * d then 13 else 7
  }

  function VocabularyPoint(unique: nat, wordCount: nat): string {
    var d := if wordCount >= 1 then wordCount else 1;
    if 5 * unique >= 3 * d then "\U{2713} Excellent vocabulary diversity."
    else if 5 * unique >= 2 * d then "Good vocabulary. Try more varied word choices."
    else "Response shows repetitive vocabulary."
  }

  /** More distinct words (out of the same count) never lower the vocabulary score. */
  lemma VocabularyScoreMonotone(u1: nat, u2: nat, wordCount: nat)
    requires u1 <= u2
    ensures VocabularyScore(u1, wordCount) <= VocabularyScore(u2, wordCount)
  {
  }

  // ---------------------------------------------------------------------
  // Final score, grade, result

  /** `max(0, min(round(raw / 100 * max_score), max_score))`. */
  function FinalScore(raw: int, maxScore: int): (r: int)
    ensures 0 <= r
    ensures maxScore >= 0 ==> r <= maxScore
    ensures maxScore < 0 ==> r == 0
    ensures maxScore == 100 && 0 <= raw <= 100 ==> r == raw
  {
    var scaled := Round(raw * maxScore, 100);
    assert maxScore == 100 ==> scaled == raw by {
      if maxScore == 100 {
        RoundExact(raw, 100);
      }
    }
    var capped := if scaled < maxScore then scaled else maxScore;
    if capped > 0 then capped else 0
  }

  /** An exact quotient rounds to itself. */
  lemma RoundExact(q: int, den: int)
    requires den > 0
    ensures Round(q * den, den) == q
  {
    var r := Round(q * den, den);
    assert (q - r) * den == q * den - r * den;
    MulBounds(q - r, den);
  }

  /** A higher raw score never gives a lower final score, whatever the maximum. */
  lemma FinalScoreMonotone(raw1: int, raw2: int, maxScore: int)
    requires raw1 <= raw2
    ensures FinalScore(raw1, maxScore) <= FinalScore(raw2, maxScore)
  {
    if maxScore >= 0 {
      assert raw1 * maxScore <= raw2 * maxScore by {
        assert raw2 * maxScore - raw1 * maxScore == (raw2 - raw1) * maxScore;
      }
      RoundMonotone(raw1 * maxScore, raw2 * maxScore, 100);
    }
  }

  datatype Grade = Excellent | Good | Satisfactory | NeedsImprovement

  function GradeName(g: Grade): string {
    match g
    case Excellent => "Excellent"
    case Good => "Good"
    case Satisfactory => "Satisfactory"
    case NeedsImprovement => "Needs Improvement"
  }

  /** The grades in increasing order. */
  function Rank(g: Grade): (r: nat)
    ensures r <= 3
  {
    match g
    case NeedsImprovement => 0
    case Satisfactory => 1
    case Good => 2
    case Excellent => 3
  }

  /** The grade of a final score, on absolute thresholds 80, 65 and 50. */
  function GradeFor(score: int): Grade {
    if score >= 80 then Excellent else if score >= 65 then Good else if score >= 50 then Satisfactory else NeedsImprovement
  }

  /** A higher final score never gets a lower grade. */
  lemma GradeMonotone(s1: int, s2: int)
    requires s1 <= s2
    ensures Rank(GradeFor(s1)) <= Rank(GradeFor(s2))
  {
  }

  /** The opening of the summary for each grade. */
  function SummaryPrefix(g: Grade): string {
    match g
    case Excellent => "Strong submission! "
    case Good => "Good effort. "
    case Satisfactory => "Satisfactory work. "
    case NeedsImprovement => "Needs improvement. "
  }

  /** The `breakdown` dictionary of a scored text. */
  datatype Breakdown = Breakdown(
    lengthScore: int,
    structureScore: int,
    keywordScore: int,
    vocabularyScore: int,
    wordCount: nat,
    sentenceCount: nat,
    paragraphCount: nat)

  /** The sum of the four component scores. */
  function RawScore(b: Breakdown): int {
    b.lengthScore + b.structureScore + b.keywordScore + b.vocabularyScore
  }

  /** What `generate_feedback` returns: for a blank text, score 0, the summary
      "No content submitted." and an empty breakdown; otherwise the full report. */
  datatype Feedback =
    | NoContent
    | Report(score: int, grade: Grade, summary: string, points: seq<string>, breakdown: Breakdown)

  const NoContentSummary := "No content submitted."

  /** The `score` field of either result. */
  function ScoreOf(f: Feedback): int {
    if f.NoContent? then 0 else f.score
  }

  /** The `feedback_summary` field of either result. */
  function SummaryOf(f: Feedback): string {
    if f.NoContent? then NoContentSummary else f.summary
  }

  /** The four component scores and the three counts of a text. */
  function Assess(text: string, keywords: seq<string>): (b: Breakdown)
    ensures b.wordCount == |Words(text)|
    ensures b.sentenceCount == |Sentences(text)|
    ensures b.paragraphCount == |Paragraphs(text)|
    ensures b.lengthScore == LengthScore(b.wordCount)
    ensures b.structureScore == StructureScore(b.wordCount, b.sentenceCount, b.paragraphCount)
    ensures b.keywordScore == KeywordScore(|Matched(keywords, text)|, |keywords|)
    ensures b.vocabularyScore == VocabularyScore(|UniqueWords(Words(text))|, b.wordCount)
    ensures 16 <= RawScore(b) <= 100
  {
    var words := Words(text);
    var wordCount, sentenceCount, paragraphCount := |words|, |Sentences(text)|, |Paragraphs(text)|;
    Breakdown(
      LengthScore(wordCount),
      StructureScore(wordCount, sentenceCount, paragraphCount),
      KeywordScore(|Matched(keywords, text)|, |keywords|),
      VocabularyScore(|UniqueWords(words)|, wordCount),
      wordCount, sentenceCount, paragraphCount)
  }

  /** The feedback points, one per component, the keyword one only when there are keywords. */
  function Points(text: string, keywords: seq<string>): (points: seq<string>)
    ensures |points| == (if keywords == [] then 4 else 5)
    ensures points[|points| - 1] == VocabularyPoint(|UniqueWords(Words(text))|, |Words(text)|)
  {
    var words := Words(text);
    var wordCount, sentenceCount, paragraphCount := |words|, |Sentences(text)|, |Paragraphs(text)|;
    [LengthPoint(wordCount), ParagraphPoint(paragraphCount), SentencePoint(wordCount, sentenceCount)]
      + KeywordPoints(keywords, text) + [VocabularyPoint(|UniqueWords(words)|, wordCount)]
  }

  /** `generate_feedback(text, keywords, max_score)`. */
  function GenerateFeedback(text: string, keywords: seq<string>, maxScore: int): (f: Feedback)
    ensures f.NoContent? <==> IsBlank(text)
    ensures IsBlank(text) ==> ScoreOf(f) == 0 && SummaryOf(f) == NoContentSummary
    ensures 0 <= ScoreOf(f) && (maxScore >= 0 ==> ScoreOf(f) <= maxScore)
    ensures f.Report? ==>
      && f.breakdown == Assess(text, keywords) && f.points == Points(text, keywords)
      && f.breakdown.wordCount >= 1 && f.breakdown.paragraphCount >= 1
      && f.score == FinalScore(RawScore(f.breakdown), maxScore)
      && (maxScore == 100 ==> f.score == RawScore(f.breakdown))
      && f.grade == GradeFor(f.score)
      && |f.points| >= 4
      && f.summary == SummaryPrefix(f.grade) + f.points[|f.points| - 1]
  {
    if IsBlank(text) then NoContent
    else
      var b, points := Assess(text, keywords), Points(text, keywords);
      assert b.wordCount >= 1 && b.paragraphCount >= 1 by {
        WordsIffNotBlank(text);
        ParagraphsIffNotBlank(text);
      }
      var score := FinalScore(RawScore(b), maxScore);
      var grade := GradeFor(score);
      Report(score, grade, SummaryPrefix(grade) + points[|points| - 1], points, b)
  }

  /** The grade scale does not follow the maximum: below a maximum of 50 every
      report is graded "Needs Improvement", below 80 none is "Excellent". */
  lemma GradeIgnoresMaximum(raw: int, maxScore: int)
    ensures maxScore < 80 ==> GradeFor(FinalScore(raw, maxScore)) != Excellent
    ensures maxScore < 50 ==> GradeFor(FinalScore(raw, maxScore)) == NeedsImprovement
  {
  }
}
