/** The front-matter finder `_find_front_matter_end` and the horizontal-rule
    normalizer `_normalize_horizontal_rules_for_pdf`: outside a leading YAML
    front matter, every line made only of three or more dashes becomes `***`
    (after its leading whitespace), so that pandoc does not read it as a
    metadata delimiter. */
module HorizontalRules {
  import opened PyStr

  /** A line that closes front matter: it strips to `---` or `...`. */
  predicate IsCloser(line: string)
  {
    Strip(line) == "---" || Strip(line) == "..."
  }

  /** The first closer at or after `from`, if any. */
  function FirstCloser(lines: seq<string>, from: nat): (r: Option<nat>)
    requires from <= |lines|
    ensures r.Some? ==> from <= r.value < |lines|
    decreases |lines| - from
  {
    if from == |lines| then None
    else if IsCloser(lines[from]) then Some(from)
    else FirstCloser(lines, from + 1)
  }

  /** Front matter is present when line 0 strips to `---` and a later line
      closes it; the result is the index just past the first closing line. */
  function FrontMatterEnd(lines: seq<string>): (r: Option<nat>)
    ensures r.Some? ==> 2 <= r.value <= |lines|
  {
    if |lines| == 0 || Strip(lines[0]) != "---" then None
    else match FirstCloser(lines, 1)
      case None => None
      case Some(k) => Some(k + 1)
  }

  lemma {:induction false} FirstCloserIsFirst(lines: seq<string>, from: nat)
    requires from <= |lines|
    ensures match FirstCloser(lines, from)
      case Some(k) => IsCloser(lines[k]) && forall m | from <= m < k :: !IsCloser(lines[m])
      case None => forall m | from <= m < |lines| :: !IsCloser(lines[m])
    decreases |lines| - from
  {
    if from < |lines| && !IsCloser(lines[from]) {
      FirstCloserIsFirst(lines, from + 1);
      assert FirstCloser(lines, from) == FirstCloser(lines, from + 1);
    }
  }

  /** Front matter is found exactly when line 0 strips to `---` and some later
      line strips to `---` or `...`; it then ends just past the first such line. */
  lemma FrontMatterEndSpec(lines: seq<string>)
    ensures FrontMatterEnd(lines).None? <==>
      |lines| == 0 || Strip(lines[0]) != "---" || forall m | 1 <= m < |lines| :: !IsCloser(lines[m])
    ensures FrontMatterEnd(lines).Some? ==>
      && Strip(lines[0]) == "---"
      && IsCloser(lines[FrontMatterEnd(lines).value - 1])
      && forall m | 1 <= m < FrontMatterEnd(lines).value - 1 :: !IsCloser(lines[m])
  {
    if |lines| > 0 {
      FirstCloserIsFirst(lines, 1);
    }
  }

  /** The finder's loop, returning as soon as it meets a closer. */
  method FindFrontMatterEnd(lines: seq<string>) returns (r: Option<nat>)
    ensures r == FrontMatterEnd(lines)
  {
    if |lines| == 0 {
      return None;
    }
    if Strip(lines[0]) != "---" {
      return None;
    }
    for idx := 1 to |lines|
      invariant FirstCloser(lines, idx) == FirstCloser(lines, 1)
    {
      var stripped := Strip(lines[idx]);
      if stripped == "---" || stripped == "..." {
        return Some(idx + 1);
      }
    }
    return None;
  }

  /** A horizontal rule in dashes: the stripped line is non-empty, made only of
      `-`, and at least three long. */
  predicate IsDashRule(line: string)
  {
    var t := Strip(line);
    t != "" && (forall k | 0 <= k < |t| :: t[k] == '-') && |t| >= 3
  }

  /** One body line after normalization. */
  function NormalizeLine(line: string): string
  {
    if IsDashRule(line) then Leading(line) + "***" else line
  }

  /** A normalized line is never a dash rule, and normalizing adds no line
      boundary. */
  lemma NormalizeLineClean(line: string)
    ensures !IsDashRule(NormalizeLine(line))
    ensures NoBreak(line) ==> NoBreak(NormalizeLine(line))
  {
    if IsDashRule(line) {
      StripRule(line);
    }
  }

  /** `***` after whitespace strips to `***`, which is not a dash rule. */
  lemma StripRule(line: string)
    ensures Strip(Leading(line) + "***") == "***"
  {
    var w := Leading(line);
    LeadingIsSpace(line);
    LStripAfterSpace(w, "***");
    StripUnpadded("***");
  }

  /** The body lines, each normalized. */
  function NormalizeAll(body: seq<string>): (r: seq<string>)
    ensures |r| == |body|
  {
    if body == [] then [] else [NormalizeLine(body[0])] + NormalizeAll(body[1..])
  }

  /** The front-matter length: the end it finds, or 0 when there is none. */
  function PrefixLength(lines: seq<string>): (e: nat)
    ensures e <= |lines|
  {
    match FrontMatterEnd(lines)
    case Some(e) => e
    case None => 0
  }

  /** The line-level effect: the front matter, if any, is kept and every other
      line is normalized. */
  function NormalizeLines(lines: seq<string>): (r: seq<string>)
    ensures |r| == |lines|
  {
    var e := PrefixLength(lines);
    lines[..e] + NormalizeAll(lines[e..])
  }

  /** The normalizer on text: split into lines, normalize, rejoin with `\n`,
      and end in `\n` iff the input did. */
  function NormalizeText(text: string): string
  {
    JoinLines(NormalizeLines(SplitLines(text)), EndsWith(text, "\n"))
  }

  lemma {:induction false} NormalizeAllAppend(body: seq<string>, line: string)
    ensures NormalizeAll(body + [line]) == NormalizeAll(body) + [NormalizeLine(line)]
    decreases |body|
  {
    if body == [] {
      assert body + [line] == [line];
    } else {
      assert (body + [line])[1..] == body[1..] + [line];
      NormalizeAllAppend(body[1..], line);
    }
  }

  /** The loop body: a dash rule keeps its leading whitespace and becomes `***`. */
  method NormalizeOne(line: string) returns (r: string)
    ensures r == NormalizeLine(line)
  {
    var stripped := Strip(line);
    if stripped != "" && (forall m | 0 <= m < |stripped| :: stripped[m] == '-') && |stripped| >= 3 {
      var leading := line[..|line| - |LStrip(line)|];
      r := leading + "***";
    } else {
      r := line;
    }
  }

  /** The normalizer as the source runs it. */
  method NormalizeHorizontalRules(text: string) returns (r: string)
    ensures r == NormalizeText(text)
  {
    var lines := SplitLines(text);
    var frontMatterEnd := FindFrontMatterEnd(lines);
    var e := if frontMatterEnd.Some? then frontMatterEnd.value else 0;
    assert e == PrefixLength(lines);
    var normalized := NormalizeFrom(lines, e);
    r := JoinLines(lines[..e] + normalized, EndsWith(text, "\n"));
  }

  /** The loop over the lines after the front matter. */
  method NormalizeFrom(lines: seq<string>, e: nat) returns (normalized: seq<string>)
    requires e <= |lines|
    ensures normalized == NormalizeAll(lines[e..])
  {
    normalized := [];
    for k := e to |lines|
      invariant normalized == NormalizeAll(lines[e..k])
    {
      NormalizeAllSlice(lines, e, k);
      var n := NormalizeOne(lines[k]);
      normalized := normalized + [n];
    }
    assert lines[e..|lines|] == lines[e..];
  }

  /** One more line normalized at the end of the slice. */
  lemma NormalizeAllSlice(lines: seq<string>, e: nat, k: nat)
    requires e <= k < |lines|
    ensures NormalizeAll(lines[e..k + 1]) == NormalizeAll(lines[e..k]) + [NormalizeLine(lines[k])]
  {
    assert lines[e..k + 1] == lines[e..k] + [lines[k]];
    NormalizeAllAppend(lines[e..k], lines[k]);
  }

  // ---------------------------------------------------------------------------
  // Properties

  /** Leading whitespace is absorbed by `lstrip`. */
  lemma {:induction false} LStripAfterSpace(w: string, t: string)
    requires forall k | 0 <= k < |w| :: IsSpace(w[k])
    ensures LStrip(w + t) == LStrip(t)
    decreases |w|
  {
    if w != [] {
      assert (w + t)[0] == w[0];
      assert (w + t)[1..] == w[1..] + t;
      LStripAfterSpace(w[1..], t);
    } else {
      assert w + t == t;
    }
  }

  /** Normalizing a line twice is normalizing it once. */
  lemma NormalizeLineIdempotent(line: string)
    ensures NormalizeLine(NormalizeLine(line)) == NormalizeLine(line)
  {
    NormalizeLineClean(line);
  }

  lemma {:induction false} NormalizeAllIndex(body: seq<string>)
    ensures forall k | 0 <= k < |body| :: NormalizeAll(body)[k] == NormalizeLine(body[k])
    decreases |body|
  {
    if body != [] {
      NormalizeAllIndex(body[1..]);
    }
  }

  lemma {:induction false} NormalizeAllIdempotent(body: seq<string>)
    ensures NormalizeAll(NormalizeAll(body)) == NormalizeAll(body)
    decreases |body|
  {
    if body != [] {
      var r := NormalizeAll(body);
      assert r[0] == NormalizeLine(body[0]) && r[1..] == NormalizeAll(body[1..]);
      NormalizeLineIdempotent(body[0]);
      NormalizeAllIdempotent(body[1..]);
    }
  }

  /** Front matter is copied verbatim; every later dash rule becomes its
      leading whitespace followed by `***`; every other line is unchanged. */
  lemma NormalizeLinesEffect(lines: seq<string>)
    ensures |NormalizeLines(lines)| == |lines|
    ensures forall k | 0 <= k < PrefixLength(lines) :: NormalizeLines(lines)[k] == lines[k]
    ensures forall k | PrefixLength(lines) <= k < |lines| :: NormalizeLines(lines)[k] == NormalizeLine(lines[k])
  {
    var e := PrefixLength(lines);
    assert NormalizeLines(lines) == lines[..e] + NormalizeAll(lines[e..]);
    NormalizeAfter(lines, e);
  }

  /** Lines before `e` kept and the rest normalized, index by index. */
  lemma NormalizeAfter(lines: seq<string>, e: nat)
    requires e <= |lines|
    ensures forall k | 0 <= k < e :: (lines[..e] + NormalizeAll(lines[e..]))[k] == lines[k]
    ensures forall k | e <= k < |lines| :: (lines[..e] + NormalizeAll(lines[e..]))[k] == NormalizeLine(lines[k])
  {
    var body := lines[e..];
    var out := lines[..e] + NormalizeAll(body);
    NormalizeAllIndex(body);
    forall k | e <= k < |lines|
      ensures out[k] == NormalizeLine(lines[k])
    {
      assert out[k] == NormalizeAll(body)[k - e];
      assert body[k - e] == lines[k];
    }
  }

  /** Normalizing keeps every line free of line boundaries. */
  lemma NormalizeLinesNoBreak(lines: seq<string>)
    requires forall l | l in lines :: NoBreak(l)
    ensures forall l | l in NormalizeLines(lines) :: NoBreak(l)
  {
    var out := NormalizeLines(lines);
    NormalizeLinesEffect(lines);
    forall k | 0 <= k < |out|
      ensures NoBreak(out[k])
    {
      assert lines[k] in lines;
      NormalizeLineClean(lines[k]);
    }
  }

  /** A line that strips to `---` is a dash rule. */
  lemma ThreeDashesIsRule(line: string)
    requires Strip(line) == "---"
    ensures IsDashRule(line)
  {
  }

  /** A leading `---` that is never closed is not front matter: it becomes `***`. */
  lemma UnclosedFrontMatterIsRule(lines: seq<string>)
    requires |lines| > 0 && Strip(lines[0]) == "---"
    requires forall m | 1 <= m < |lines| :: !IsCloser(lines[m])
    ensures NormalizeLines(lines)[0] == Leading(lines[0]) + "***"
  {
    FrontMatterEndSpec(lines);
    assert PrefixLength(lines) == 0;
    ThreeDashesIsRule(lines[0]);
    assert NormalizeLines(lines)[0] == NormalizeAll(lines)[0];
  }

  /** Without front matter in the input there is none in the output: a
      leading `---` has become `***`. */
  lemma NoFrontMatterAfter(lines: seq<string>)
    requires FrontMatterEnd(lines).None?
    ensures FrontMatterEnd(NormalizeAll(lines)).None?
  {
    if lines != [] {
      var out := NormalizeAll(lines);
      assert out[0] == NormalizeLine(lines[0]);
      if Strip(lines[0]) == "---" {
        ThreeDashesIsRule(lines[0]);
      }
      if IsDashRule(lines[0]) {
        StripRule(lines[0]);
        assert Strip(out[0]) == "***";
      } else {
        assert out[0] == lines[0];
      }
      assert Strip(out[0]) != "---";
    }
  }

  /** Normalized lines have the same front matter, so normalizing twice is
      normalizing once. */
  lemma NormalizeLinesIdempotent(lines: seq<string>)
    ensures NormalizeLines(NormalizeLines(lines)) == NormalizeLines(lines)
  {
    var out := NormalizeLines(lines);
    var e := PrefixLength(lines);
    var body := NormalizeAll(lines[e..]);
    assert out == lines[..e] + body;
    assert out[..e] == lines[..e] && out[e..] == body;
    if FrontMatterEnd(lines).Some? {
      FrontMatterSame(lines, out, e);
    } else {
      assert lines[..0] == [] && lines[0..] == lines;
      NoFrontMatterAfter(lines);
    }
    assert PrefixLength(out) == e;
    NormalizeAllIdempotent(lines[e..]);
  }

  /** Two line lists that agree up to a front-matter end have it as theirs too. */
  lemma FrontMatterSame(a: seq<string>, b: seq<string>, e: nat)
    requires FrontMatterEnd(a) == Some(e) && e <= |b|
    requires a[..e] == b[..e]
    ensures FrontMatterEnd(b) == Some(e)
  {
    assert a[0] == a[..e][0] == b[..e][0] == b[0];
    assert FirstCloser(a, 1) == Some(e - 1);
    assert forall m | 0 <= m < e :: a[m] == a[..e][m] == b[..e][m] == b[m];
    FirstCloserSame(a, b, 1, e - 1);
  }

  lemma {:induction false} FirstCloserSame(a: seq<string>, b: seq<string>, from: nat, k: nat)
    requires from <= k < |a| && k < |b|
    requires FirstCloser(a, from) == Some(k)
    requires forall m | from <= m <= k :: a[m] == b[m]
    ensures FirstCloser(b, from) == Some(k)
    decreases k - from
  {
    assert a[from] == b[from];
    if from < k {
      assert !IsCloser(a[from]);
      FirstCloserSame(a, b, from + 1, k);
    }
  }

  /** The last line of a split text that does not end in a line boundary is not empty. */
  lemma {:induction false} SplitLinesLastNonEmpty(s: string)
    requires s != [] && !IsLineBreak(s[|s| - 1])
    ensures SplitLines(s)[|SplitLines(s)| - 1] != ""
    decreases |s|
  {
    var k := LineEnd(s, 0);
    if k < |s| {
      var rest := s[k + BreakWidth(s, k)..];
      BreakNotLast(s, k);
      SplitLinesLastNonEmpty(rest);
      SplitLinesAtBreak(s, k);
      LastOfCons(s[..k], SplitLines(rest));
    }
  }

  /** A line boundary before a final code point that is not one leaves text after it. */
  lemma BreakNotLast(s: string, k: nat)
    requires k < |s| && IsLineBreak(s[k]) && !IsLineBreak(s[|s| - 1])
    ensures var rest := s[k + BreakWidth(s, k)..];
      rest != [] && rest[|rest| - 1] == s[|s| - 1]
  {
  }

  lemma LastOfCons<T>(x: T, rest: seq<T>)
    requires rest != []
    ensures ([x] + rest)[|[x] + rest| - 1] == rest[|rest| - 1]
  {
  }

  /** Reassembled lines come back as they were when the text ends in `\n` or in
      a code point that is not a line boundary. */
  lemma ResplitKeeps(text: string, out: seq<string>)
    requires text == [] || EndsWith(text, "\n") || !IsLineBreak(text[|text| - 1])
    requires |out| == |SplitLines(text)|
    requires out != [] && !EndsWith(text, "\n") ==> out[|out| - 1] != ""
    requires forall l | l in out :: NoBreak(l)
    ensures SplitLines(JoinLines(out, EndsWith(text, "\n"))) == out
  {
    SplitJoin(out, EndsWith(text, "\n"));
    if EndsWith(text, "\n") {
      assert text != [];
    }
  }

  /** On text that ends in `\n` or in a code point that is not a line boundary,
      the normalizer keeps the number of lines, re-splits into exactly the
      normalized lines, and ends in `\n` iff its input does. */
  lemma NormalizeKeepsLines(text: string)
    requires text == [] || EndsWith(text, "\n") || !IsLineBreak(text[|text| - 1])
    ensures SplitLines(NormalizeText(text)) == NormalizeLines(SplitLines(text))
    ensures |SplitLines(NormalizeText(text))| == |SplitLines(text)|
    ensures EndsWith(NormalizeText(text), "\n") <==> EndsWith(text, "\n")
  {
    var lines := SplitLines(text);
    var out := NormalizeLines(lines);
    var trailing := EndsWith(text, "\n");
    NormalizeLinesEffect(lines);
    SplitLinesNoBreak(text);
    NormalizeLinesNoBreak(lines);
    if out != [] && !trailing {
      SplitLinesLastNonEmpty(text);
      var last := |lines| - 1;
      assert lines[last] != "";
      assert out[last] != "";
    }
    ResplitKeeps(text, out);
    JoinLinesEndsWithNewline(out, trailing);
  }
}
