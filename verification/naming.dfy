/** The name helpers of the legacy generator: the base name of the output
    Markdown file, the check that decides whether a reply is returned before
    the retries run out, and the title the prompt asks the reply to start
    with. */
module Naming {
  import opened PyStr

  // ---------------------------------------------------------------------------
  // Output base name

  /** The suffix appended to a name that does not mention answers. */
  const AnswerSuffix := "_解答解説"

  /** The word the base name must contain. */
  const AnswerWord := "解答"

  /** `s.replace(a, b)` for single characters. */
  function ReplaceChar(s: string, a: char, b: char): (r: string)
    ensures |r| == |s|
    ensures forall i | 0 <= i < |s| :: r[i] == if s[i] == a then b else s[i]
  {
    if s == [] then [] else ReplaceChar(s[..|s| - 1], a, b) + [if s[|s| - 1] == a then b else s[|s| - 1]]
  }

  /** Both path separators become `_`. */
  function Sanitize(s: string): (r: string)
    ensures |r| == |s|
    ensures forall i | 0 <= i < |s| :: r[i] == if s[i] == '/' || s[i] == '\\' then '_' else s[i]
  {
    ReplaceChar(ReplaceChar(s, '/', '_'), '\\', '_')
  }

  /** `Path(s).stem` for a name with no separator: `Path(".")` has an empty
      name; any other name loses its last suffix. */
  function FileStem(s: string): string
  {
    if s == "." then "" else PathStem(s)
  }

  /** `_normalize_base_name`: the stripped name, or the file's stem when the
      name is blank; separators replaced; the suffix dropped; and
      `_解答解説` appended unless `解答` already occurs. */
  function NormalizeBaseName(explanationName: string, pdfStem: string): string
  {
    var base := if Strip(explanationName) != "" then Strip(explanationName) else pdfStem;
    var stem := FileStem(Sanitize(base));
    if Contains(stem, AnswerWord) then stem else stem + AnswerSuffix
  }

  /** The stem is a prefix of the name, all of it when the name has no dot. */
  lemma FileStemPrefix(s: string)
    ensures |FileStem(s)| <= |s| && FileStem(s) == s[..|FileStem(s)|]
    ensures '.' !in s ==> FileStem(s) == s
  {
    if '.' !in s {
      assert forall j | 0 <= j < |s| :: s[j] != '.';
    }
  }

  /** The appended suffix holds the answer word. */
  lemma SuffixHasAnswer(p: string)
    ensures Contains(p + AnswerSuffix, AnswerWord)
  {
    assert (p + AnswerSuffix)[|p| + 1..|p| + 3] == AnswerSuffix[1..3] == AnswerWord;
    assert IsAt(p + AnswerSuffix, AnswerWord, |p| + 1);
  }

  /** The base name always mentions answers. */
  lemma NormalizedHasAnswer(explanationName: string, pdfStem: string)
    ensures Contains(NormalizeBaseName(explanationName, pdfStem), AnswerWord)
  {
    var base := if Strip(explanationName) != "" then Strip(explanationName) else pdfStem;
    var stem := FileStem(Sanitize(base));
    if !Contains(stem, AnswerWord) {
      SuffixHasAnswer(stem);
    }
  }

  /** No separator survives in the stem of a sanitized name. */
  lemma StemHasNoSeparator(base: string)
    ensures forall j | 0 <= j < |FileStem(Sanitize(base))| ::
      FileStem(Sanitize(base))[j] != '/' && FileStem(Sanitize(base))[j] != '\\'
  {
    FileStemPrefix(Sanitize(base));
  }

  lemma SuffixHasNoSeparator()
    ensures forall j | 0 <= j < |AnswerSuffix| :: AnswerSuffix[j] != '/' && AnswerSuffix[j] != '\\'
  {
  }

  /** The base name never holds a path separator. */
  lemma NormalizedHasNoSeparator(explanationName: string, pdfStem: string)
    ensures '/' !in NormalizeBaseName(explanationName, pdfStem)
    ensures '\\' !in NormalizeBaseName(explanationName, pdfStem)
  {
    var base := if Strip(explanationName) != "" then Strip(explanationName) else pdfStem;
    var stem := FileStem(Sanitize(base));
    StemHasNoSeparator(base);
    SuffixHasNoSeparator();
    var r := NormalizeBaseName(explanationName, pdfStem);
    forall j | 0 <= j < |r|
      ensures r[j] != '/' && r[j] != '\\'
    {
      if j >= |stem| {
        assert r[j] == AnswerSuffix[j - |stem|];
      }
    }
  }

  /** The name is stripped first: padding never changes the base name. */
  lemma NormalizeIgnoresPadding(explanationName: string, pdfStem: string)
    ensures NormalizeBaseName(Strip(explanationName), pdfStem) == NormalizeBaseName(explanationName, pdfStem)
  {
    StripEnds(explanationName);
    StripUnpadded(Strip(explanationName));
  }

  /** A blank name falls back to the file's stem, whatever its padding; a
      name that is not blank makes the file irrelevant. */
  lemma NormalizeFallback(explanationName: string, pdfStem: string, otherStem: string)
    ensures Strip(explanationName) == "" ==>
      NormalizeBaseName(explanationName, pdfStem) == NormalizeBaseName("", pdfStem)
    ensures Strip(explanationName) != "" ==>
      NormalizeBaseName(explanationName, pdfStem) == NormalizeBaseName(explanationName, otherStem)
  {
    assert Strip("") == "";
  }

  /** For a plain name, with no dot, separator or padding, the result is the
      name itself when it mentions answers and the name with the suffix
      otherwise. */
  lemma NormalizePlainName(name: string, pdfStem: string)
    requires name != [] && !IsSpace(name[0]) && !IsSpace(name[|name| - 1])
    requires '.' !in name && '/' !in name && '\\' !in name
    ensures NormalizeBaseName(name, pdfStem) == if Contains(name, AnswerWord) then name else name + AnswerSuffix
  {
    StripUnpadded(name);
    var clean := Sanitize(name);
    assert clean == name;
    FileStemPrefix(clean);
  }

  // ---------------------------------------------------------------------------
  // Rejected replies

  /** The phrases that show a reply stopped short of answering every
      question. */
  const InvalidKeywords: seq<string> := [
    "同様の手順",
    "同様の処理",
    "同様の方法",
    "以下同様",
    "残りの問題",
    "以降の解答",
    "以降の解説",
    "以降、文字数制限",
    "指示に従い順次作成",
    "順次作成",
    "同様に作成",
    "（続く）",
    "(以降、各",
    "同様の詳細な解説",
    "続きの解答解説",
    "(以降、全て",
    "(以降、すべて",
    "(以降、同様の",
    "（以降の問題も同様"
  ]

  /** `_contains_invalid_keyword`: some listed phrase occurs in the text. */
  predicate ContainsInvalidKeyword(text: string)
  {
    exists k | 0 <= k < |InvalidKeywords| :: Contains(text, InvalidKeywords[k])
  }

  /** A reply is returned before the last attempt only when it is not empty
      and holds no listed phrase. (After the last attempt the last non-empty
      reply is returned whatever it holds.) */
  predicate Accepted(text: string)
  {
    text != "" && !ContainsInvalidKeyword(text)
  }

  /** The characters every listed phrase starts with. */
  const LeadChars: set<char> := {'同', '以', '残', '指', '順', '（', '(', '続'}

  lemma KeywordLeads()
    ensures forall k | 0 <= k < |InvalidKeywords| ::
      InvalidKeywords[k] != [] && InvalidKeywords[k][0] in LeadChars
  {
  }

  /** A reply with text around a listed phrase is still not accepted, so it
      is not returned before the last attempt. */
  lemma KeywordAnywhereRejects(a: string, b: string, k: nat)
    requires k < |InvalidKeywords|
    ensures !Accepted(a + InvalidKeywords[k] + b)
  {
    ContainsSelf(InvalidKeywords[k]);
    ContainsInfix(a, InvalidKeywords[k], b, InvalidKeywords[k]);
  }

  /** A reply that is not empty and uses none of the characters a listed
      phrase starts with is accepted. */
  lemma NoLeadCharAccepted(text: string)
    requires text != ""
    requires forall j | 0 <= j < |text| :: text[j] !in LeadChars
    ensures Accepted(text)
  {
    KeywordLeads();
    forall k | 0 <= k < |InvalidKeywords|
      ensures !Contains(text, InvalidKeywords[k])
    {
      forall i | 0 <= i <= |text|
        ensures !IsAt(text, InvalidKeywords[k], i)
      {
        assert i < |text| ==> text[i] != InvalidKeywords[k][0];
      }
    }
  }

  // ---------------------------------------------------------------------------
  // Prompt title

  /** The title the prompt asks the reply to open with: the stripped name,
      or the uploaded file's name when the name is blank. */
  function PromptTitle(explanationName: string, filename: string): string
  {
    if Strip(explanationName) != "" then Strip(explanationName) else filename
  }

  /** The title never carries the name's padding, is blank only when the
      file name is, and ignores the file name whenever the name is given. */
  lemma PromptTitleSpec(explanationName: string, filename: string, otherFile: string)
    ensures PromptTitle(Strip(explanationName), filename) == PromptTitle(explanationName, filename)
    ensures Strip(explanationName) != "" ==>
      && PromptTitle(explanationName, filename) == PromptTitle(explanationName, otherFile)
      && Strip(PromptTitle(explanationName, filename)) == PromptTitle(explanationName, filename)
    ensures Strip(explanationName) == "" ==> PromptTitle(explanationName, filename) == filename
  {
    StripEnds(explanationName);
    StripUnpadded(Strip(explanationName));
  }
}
