/** The two stage chains: the web-service converter (disclaimer and
    injection, then horizontal rules, images and symbols) and the
    command-line converter (injection, horizontal rules, then the disclaimer,
    images and symbols, keeping the image log). */
module Conversion {
  import opened PyStr
  import opened Blockquotes
  import opened HorizontalRules
  import opened Images
  import opened Symbols
  import opened Sidecar

  // The notice about image reading, in pieces short enough to reason about
  // one at a time. Both copies carry the same text.
  const Piece1: string := "※画像の読解については、モデルの特性上、実際の所見と異"
  const Piece2: string := "なる解釈や不正確な説明が出力されるリスクがございます。"
  const Piece3: string := "臨床判断・教育評価・公式文書等への転用に際して"
  const Piece4: string := "は、必ず原資料および一次情報を再確認し、専門家"
  const Piece5: string := "のレビューを経た上で慎重にご利用ください。"

  const Disclaimer: string := Piece1 + Piece2 + Piece3 + Piece4 + Piece5

  /** `notice` in bold followed by a blank line, unless already present. */
  function WithNotice(notice: string, text: string): string
  {
    if Contains(text, notice) then text else "**" + notice + "**\n\n" + text
  }

  /** The result always holds the notice; it is the input exactly when the
      input already held it; the input is kept as a suffix; adding twice is
      adding once. */
  lemma WithNoticeSpec(notice: string, text: string)
    ensures Contains(WithNotice(notice, text), notice)
    ensures WithNotice(notice, text) == text <==> Contains(text, notice)
    ensures EndsWith(WithNotice(notice, text), text)
    ensures WithNotice(notice, WithNotice(notice, text)) == WithNotice(notice, text)
  {
    var r := WithNotice(notice, text);
    if !Contains(text, notice) {
      ContainsSelf(notice);
      ContainsInfix("**", notice, "**\n\n" + text, notice);
      assert "**" + notice + ("**\n\n" + text) == r;
      assert r[|r| - |text|..] == text;
    } else {
      assert text[|text| - |text|..] == text;
    }
  }

  // ---------------------------------------------------------------------------
  // The web-service chain

  /** `_inject_attribution`: the disclaimer if absent, then the injector with
      the attribution text as the only marker. */
  method InjectAttribution(mdText: string, attr: string) returns (r: string)
    ensures r == InjectText(WithNotice(Disclaimer, mdText), attr, AppMarkers(attr))
  {
    var text := mdText;
    if !Contains(text, Disclaimer) {
      text := "**" + Disclaimer + "**\n\n" + text;
    }
    r := InjectAttributionToBlockquotes(text, attr, [attr]);
  }

  /** The text the web-service converter hands to pandoc. */
  function AppConvert(mdText: string, attr: string): string
  {
    var injected := InjectText(WithNotice(Disclaimer, mdText), attr, AppMarkers(attr));
    Sanitize(StripImages(NormalizeText(injected)).text)
  }

  /** The stage chain of `convert_markdown_to_pdf`, without the file read,
      the file write and the pandoc run. */
  method ConvertMarkdownText(mdText: string, attr: string) returns (r: string)
    ensures r == AppConvert(mdText, attr)
  {
    var text := InjectAttribution(mdText, attr);
    text := NormalizeHorizontalRules(text);
    var log;
    text, log := StripMarkdownImages(text, AppLog);
    r := SanitizeSymbols(text);
  }

  /** The converted text has no supplementary-plane code point and none of the
      checkbox glyphs. */
  lemma AppOutputClean(mdText: string, attr: string)
    ensures var r := AppConvert(mdText, attr);
      forall m | 0 <= m < |r| :: !IsAstral(r[m]) && !IsGlyph(r[m])
  {
    var injected := InjectText(WithNotice(Disclaimer, mdText), attr, AppMarkers(attr));
    SanitizeClean(StripImages(NormalizeText(injected)).text);
  }

  lemma Piece1NoBreak() ensures NoBreak(Piece1) {}
  lemma Piece2NoBreak() ensures NoBreak(Piece2) {}
  lemma Piece3NoBreak() ensures NoBreak(Piece3) {}
  lemma Piece4NoBreak() ensures NoBreak(Piece4) {}
  lemma Piece5NoBreak() ensures NoBreak(Piece5) {}

  lemma BoldNoBreak(a: string, b: string, c: string, d: string, e: string)
    requires NoBreak(a) && NoBreak(b) && NoBreak(c) && NoBreak(d) && NoBreak(e)
    ensures NoBreak("**" + (a + b + c + d + e) + "**")
  {
    NoBreakConcat(a, b);
    NoBreakConcat(a + b, c);
    NoBreakConcat(a + b + c, d);
    NoBreakConcat(a + b + c + d, e);
    NoBreakConcat("**", a + b + c + d + e);
    NoBreakConcat("**" + (a + b + c + d + e), "**");
  }

  /** The bold disclaimer line holds no line boundary. */
  lemma DisclaimerNoBreak()
    ensures NoBreak("**" + Disclaimer + "**")
  {
    Piece1NoBreak();
    Piece2NoBreak();
    Piece3NoBreak();
    Piece4NoBreak();
    Piece5NoBreak();
    BoldNoBreak(Piece1, Piece2, Piece3, Piece4, Piece5);
  }

  /** The bold disclaimer line is not a quote, is unpadded, and does not
      strip to `---`. */
  lemma DisclaimerLine()
    ensures var head := "**" + Disclaimer + "**";
      !IsQuote(head) && Strip(head) == head && head != "---"
  {
    var head := "**" + Disclaimer + "**";
    assert head[0] == '*' && head[|head| - 1] == '*';
    assert LStrip(head) == head;
    StripUnpadded(head);
    assert "---"[0] == '-';
  }

  /** Prepending the disclaimer puts two lines in front of the input's lines. */
  lemma {:induction false} SplitWithNotice(mdText: string)
    requires !Contains(mdText, Disclaimer)
    ensures SplitLines(WithNotice(Disclaimer, mdText)) == ["**" + Disclaimer + "**", ""] + SplitLines(mdText)
  {
    var head := "**" + Disclaimer + "**";
    var rest := "" + "\n" + mdText;
    DisclaimerNoBreak();
    assert WithNotice(Disclaimer, mdText) == head + "\n" + rest;
    SplitLinesCons(head, rest);
    SplitLinesCons("", mdText);
    var tail := SplitLines(mdText);
    assert [head] + ([""] + tail) == [head, ""] + tail;
  }

  /** A line that strips to `---` is not a quote. */
  lemma RuleNotQuote(line: string)
    requires Strip(line) == "---"
    ensures !IsQuote(line)
  {
    var l := LStrip(line);
    RStripIsPrefix(l);
    assert l != [];
    assert RStrip(l)[0] == l[0];
  }

  /** In the web-service chain the disclaimer goes in before the normalizer,
      so front matter that opened the input no longer opens the text the
      normalizer sees: its opening `---` (now line 2) becomes `***`. */
  lemma AppLosesFrontMatter(mdText: string, attr: string)
    requires !Contains(mdText, Disclaimer) && NoBreak(attr)
    requires SplitLines(mdText) != [] && Strip(SplitLines(mdText)[0]) == "---"
    ensures var lines := NormalizeLines(SplitLines(InjectText(WithNotice(Disclaimer, mdText), attr, AppMarkers(attr))));
      |lines| > 2 && lines[2] == Leading(SplitLines(mdText)[0]) + "***"
  {
    var head := "**" + Disclaimer + "**";
    var body := SplitLines(mdText);
    var text := WithNotice(Disclaimer, mdText);
    var markers := AppMarkers(attr);
    SplitWithNotice(mdText);
    DisclaimerLine();
    var lines := SplitLines(text);
    assert lines == [head, ""] + body;
    InjectNewLines(head, body, attr, markers);
    var out := Inject(lines, attr, markers);
    ResplitInjected(text, attr, markers);
    var again := SplitLines(InjectText(text, attr, markers));
    assert again == Resplit(out, EndsWith(text, "\n"));
    assert out[2] != "";
    ResplitKeeps(out, EndsWith(text, "\n"), 0);
    ResplitKeeps(out, EndsWith(text, "\n"), 2);
    RuleAfterHead(again);
  }

  lemma ResplitKeeps(lines: seq<string>, trailing: bool, k: nat)
    requires k < |lines| - 1 || (k == |lines| - 1 && lines[k] != "")
    ensures k < |Resplit(lines, trailing)| && Resplit(lines, trailing)[k] == lines[k]
  {
  }

  /** Re-splitting the injector's text gives its lines back (less a final
      empty line that the join turns into the closing newline). */
  lemma ResplitInjected(text: string, attr: string, markers: seq<string>)
    requires NoBreak(attr)
    ensures SplitLines(InjectText(text, attr, markers))
      == Resplit(Inject(SplitLines(text), attr, markers), EndsWith(text, "\n"))
  {
    var lines := SplitLines(text);
    SplitLinesNoBreak(text);
    InjectNoBreak(lines, attr, markers);
    SplitJoin(Inject(lines, attr, markers), EndsWith(text, "\n"));
  }

  /** Behind a first line that is not `---`, a `---` line is a rule. */
  lemma RuleAfterHead(lines: seq<string>)
    requires |lines| > 2 && Strip(lines[0]) != "---" && Strip(lines[2]) == "---"
    ensures |NormalizeLines(lines)| > 2 && NormalizeLines(lines)[2] == Leading(lines[2]) + "***"
  {
    assert PrefixLength(lines) == 0;
    NormalizeLinesEffect(lines);
    ThreeDashesIsRule(lines[2]);
  }

  lemma InjectNewLines(head: string, body: seq<string>, attr: string, markers: seq<string>)
    requires !IsQuote(head) && body != [] && Strip(body[0]) == "---"
    ensures var out := Inject([head, ""] + body, attr, markers);
      |out| > 2 && out[0] == head && out[2] == body[0]
  {
    assert !IsQuote("");
    InjectPlainPrefix([head, ""], body, attr, markers);
    RuleNotQuote(body[0]);
    InjectPlain(body[0], body[1..], attr, markers);
    assert body == [body[0]] + body[1..];
  }

  // ---------------------------------------------------------------------------
  // The command-line chain

  /** The converted text and the image log. */
  datatype Converted = Converted(text: string, log: seq<string>)

  /** The chain of `add_attribution_to_blockquotes_file`: the injector with
      the attribution and the default attribution as markers, the
      normalizer, the disclaimer if absent, the stripper with its descriptive
      log, and the sanitizer. */
  function LegacyConvert(text: string, attr: string, env: Option<string>): Converted
  {
    var injected := InjectText(text, attr, LegacyMarkers(attr, DefaultAttribution(env)));
    var noticed := WithNotice(Disclaimer, NormalizeText(injected));
    var stripped := StripImages(noticed);
    Converted(Sanitize(stripped.text), Logs(LegacyLog, noticed, stripped.spans))
  }

  /** The stage chain, without the file read and write. */
  method AddAttributionToBlockquotes(text: string, attr: string, env: Option<string>) returns (out: string, logs: seq<string>)
    ensures Converted(out, logs) == LegacyConvert(text, attr, env)
  {
    var default := DefaultAttribution(env);
    var markers := [attr];
    if default != "" && default !in markers {
      markers := markers + [default];
    }
    assert markers == LegacyMarkers(attr, default);
    var injected := InjectAttributionToBlockquotes(text, attr, markers);
    var newText := NormalizeHorizontalRules(injected);
    if !Contains(newText, Disclaimer) {
      newText := "**" + Disclaimer + "**\n\n" + newText;
    }
    assert newText == WithNotice(Disclaimer, NormalizeText(injected));
    out, logs := StripMarkdownImages(newText, LegacyLog);
    out := SanitizeSymbols(out);
  }

  /** The converted text is clean of supplementary-plane code points and
      checkbox glyphs; before sanitizing it is the normalized text with the
      notice minus ordered, valid image spans, and the log describes those
      spans one by one, in order. */
  lemma LegacyOutputClean(text: string, attr: string, env: Option<string>)
    ensures var c := LegacyConvert(text, attr, env);
      var noticed := WithNotice(Disclaimer, NormalizeText(InjectText(text, attr, LegacyMarkers(attr, DefaultAttribution(env)))));
      var spans := StripImages(noticed).spans;
      && (forall m | 0 <= m < |c.text| :: !IsAstral(c.text[m]) && !IsGlyph(c.text[m]))
      && Ordered(noticed, 0, spans)
      && c.text == Sanitize(Remaining(noticed, 0, spans))
      && (forall sp | sp in spans :: ValidSpan(noticed, sp))
      && |c.log| == |spans|
      && (forall k | 0 <= k < |spans| :: c.log[k] == LogLine(LegacyLog, noticed, spans[k]))
  {
    var noticed := WithNotice(Disclaimer, NormalizeText(InjectText(text, attr, LegacyMarkers(attr, DefaultAttribution(env)))));
    SanitizeClean(StripImages(noticed).text);
    StripDeletesSpans(noticed);
  }

  /** In the command-line chain the normalizer runs first: front matter that
      opens the input, and holds no quote line, is kept verbatim. */
  lemma LegacyKeepsFrontMatter(text: string, attr: string, markers: seq<string>)
    requires NoBreak(attr)
    requires FrontMatterEnd(SplitLines(text)).Some?
    requires var e := FrontMatterEnd(SplitLines(text)).value;
      forall k | 0 <= k < e :: !IsQuote(SplitLines(text)[k])
    ensures var lines := SplitLines(text);
      var e := FrontMatterEnd(lines).value;
      var normalized := NormalizeLines(SplitLines(InjectText(text, attr, markers)));
      |normalized| >= e && normalized[..e] == lines[..e]
  {
    var lines := SplitLines(text);
    var e := FrontMatterEnd(lines).value;
    InjectedKeepsFrontMatter(text, attr, markers);
    var again := SplitLines(InjectText(text, attr, markers));
    NormalizeKeepsFrontMatter(lines, again, e);
  }

  /** Injection leaves a front matter free of quotes in place, line for line. */
  lemma InjectedKeepsFrontMatter(text: string, attr: string, markers: seq<string>)
    requires NoBreak(attr)
    requires FrontMatterEnd(SplitLines(text)).Some?
    requires var e := FrontMatterEnd(SplitLines(text)).value;
      forall k | 0 <= k < e :: !IsQuote(SplitLines(text)[k])
    ensures var lines := SplitLines(text);
      var e := FrontMatterEnd(lines).value;
      var again := SplitLines(InjectText(text, attr, markers));
      |again| >= e && again[..e] == lines[..e]
  {
    var lines := SplitLines(text);
    var e := FrontMatterEnd(lines).value;
    var out := Inject(lines, attr, markers);
    InjectKeepsPlainPrefix(lines, e, attr, markers);
    FrontMatterEndSpec(lines);
    CloserNotEmpty(lines[e - 1]);
    PrefixLast(out, lines, e);
    SplitLinesNoBreak(text);
    InjectNoBreak(lines, attr, markers);
    SplitJoin(out, EndsWith(text, "\n"));
    ResplitKeepsPrefix(out, EndsWith(text, "\n"), e);
  }

  lemma CloserNotEmpty(line: string)
    requires IsCloser(line)
    ensures line != ""
  {
    assert Strip("") == "";
  }

  lemma PrefixLast(a: seq<string>, b: seq<string>, e: nat)
    requires 0 < e <= |a| && e <= |b| && a[..e] == b[..e]
    ensures a[e - 1] == b[e - 1]
  {
    assert a[e - 1] == a[..e][e - 1];
  }

  lemma InjectKeepsPlainPrefix(lines: seq<string>, e: nat, attr: string, markers: seq<string>)
    requires e <= |lines| && forall k | 0 <= k < e :: !IsQuote(lines[k])
    ensures |Inject(lines, attr, markers)| >= e
    ensures Inject(lines, attr, markers)[..e] == lines[..e]
  {
    assert lines == lines[..e] + lines[e..];
    InjectPlainPrefix(lines[..e], lines[e..], attr, markers);
  }

  /** Re-splitting keeps a prefix whose last line is not empty, or that is
      followed by more lines. */
  lemma ResplitKeepsPrefix(out: seq<string>, trailing: bool, e: nat)
    requires 0 < e <= |out| && (e == |out| ==> out[e - 1] != "")
    ensures |Resplit(out, trailing)| >= e && Resplit(out, trailing)[..e] == out[..e]
  {
  }

  /** Normalizing rules keeps a front matter that another text shares. */
  lemma NormalizeKeepsFrontMatter(lines: seq<string>, again: seq<string>, e: nat)
    requires FrontMatterEnd(lines) == Some(e)
    requires |again| >= e && again[..e] == lines[..e]
    ensures |NormalizeLines(again)| >= e && NormalizeLines(again)[..e] == lines[..e]
  {
    FrontMatterSame(lines, again, e);
    NormalizeLinesEffect(again);
  }

}
