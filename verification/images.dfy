/** The image stripper `_strip_markdown_images`: one left-to-right pass that
    deletes `![alt](target)` and `![alt][label]` spans and logs each removal.
    The two copies of the code differ only in the log text, chosen here by a
    `LogStyle`. */
module Images {
  import opened PyStr
  import opened Delimiter

  datatype Kind = Inline | Reference

  /** A removed image: `!` at `start`, the alt text's `]` at `altClose`, the
      target's `(` (or the label's `[`) at `bodyOpen` and its closer at `bodyClose`. */
  datatype Span = Span(kind: Kind, start: nat, altClose: nat, bodyOpen: nat, bodyClose: nat)

  /** The web-service copy logs a bare kind; the command-line copy logs alt text
      and target or label. */
  datatype LogStyle = AppLog | LegacyLog

  datatype Stripped = Stripped(text: string, spans: seq<Span>)

  /** `while j < n and md_text[j].isspace(): j += 1` */
  function SkipSpace(text: string, j: nat): (k: nat)
    requires j <= |text|
    ensures j <= k <= |text|
    decreases |text| - j
  {
    if j < |text| && IsSpace(text[j]) then SkipSpace(text, j + 1) else j
  }

  /** The skip passes over whitespace only and stops at the first code point
      that is not whitespace. */
  lemma {:induction false} SkipSpaceSpec(text: string, j: nat)
    requires j <= |text|
    ensures forall m | j <= m < SkipSpace(text, j) :: IsSpace(text[m])
    ensures SkipSpace(text, j) < |text| ==> !IsSpace(text[SkipSpace(text, j)])
    decreases |text| - j
  {
    if j < |text| && IsSpace(text[j]) {
      SkipSpaceSpec(text, j + 1);
    }
  }

  /** `!` at `i` opens an image: it is followed by `[` and not preceded by a backslash. */
  predicate OpensImage(text: string, i: nat)
  {
    i + 1 < |text| && text[i] == '!' && (i == 0 || text[i - 1] != '\\') && text[i + 1] == '['
  }

  /** The closer that pairs with each opener. */
  function CloserOf(open: char): char
  {
    if open == '(' then ')' else ']'
  }

  /** A span the stripper may delete: an image opener, an alt text closed by the
      scanner, only whitespace up to a `(` or `[` (the first non-space code
      point after the alt text), and that body closed by the scanner. */
  ghost predicate ValidSpan(text: string, sp: Span)
  {
    && OpensImage(text, sp.start)
    && FindClose(text, sp.start + 1, '[', ']') == Some(sp.altClose)
    && sp.altClose < sp.bodyOpen < |text|
    && SkipSpace(text, sp.altClose + 1) == sp.bodyOpen
    && text[sp.bodyOpen] == (if sp.kind == Inline then '(' else '[')
    && FindClose(text, sp.bodyOpen, text[sp.bodyOpen], CloserOf(text[sp.bodyOpen])) == Some(sp.bodyClose)
  }

  /** The image the scan recognises at `i`, if any. */
  function ImageAt(text: string, i: nat): (r: Option<Span>)
    requires i < |text|
    ensures r.Some? ==> r.value.start == i && i + 2 <= r.value.altClose < r.value.bodyOpen < r.value.bodyClose < |text|
  {
    if !OpensImage(text, i) then None
    else match FindClose(text, i + 1, '[', ']')
      case None => None
      case Some(altClose) =>
        var j := SkipSpace(text, altClose + 1);
        if j < |text| && text[j] == '(' then
          match FindClose(text, j, '(', ')')
          case None => None
          case Some(c) => Some(Span(Inline, i, altClose, j, c))
        else if j < |text| && text[j] == '[' then
          match FindClose(text, j, '[', ']')
          case None => None
          case Some(c) => Some(Span(Reference, i, altClose, j, c))
        else None
  }

  /** The pass from position `i` to the end: kept text and removed spans. */
  function StripFrom(text: string, i: nat): Stripped
    requires i <= |text|
    decreases |text| - i
  {
    if i == |text| then Stripped("", [])
    else match ImageAt(text, i)
      case Some(sp) =>
        var rest := StripFrom(text, sp.bodyClose + 1);
        Stripped(rest.text, [sp] + rest.spans)
      case None =>
        var rest := StripFrom(text, i + 1);
        Stripped([text[i]] + rest.text, rest.spans)
  }

  function StripImages(text: string): Stripped
  {
    StripFrom(text, 0)
  }

  /** `s or fallback` for strings. */
  function OrElse(s: string, fallback: string): string
  {
    if s != "" then s else fallback
  }

  /** Python's `s[a:b]` for non-negative bounds: clamped, never out of range. */
  function Slice(s: string, a: nat, b: nat): string
    decreases b - a
  {
    if b <= a || |s| <= a then "" else [s[a]] + Slice(s, a + 1, b)
  }

  /** The clamped slice is the plain one once the bounds are clamped. */
  lemma {:induction false} SliceIsSubsequence(s: string, a: nat, b: nat)
    ensures Slice(s, a, b) == if b <= a || |s| <= a then "" else if b <= |s| then s[a..b] else s[a..]
    decreases b - a
  {
    if !(b <= a || |s| <= a) {
      SliceIsSubsequence(s, a + 1, b);
    }
  }

  /** The removal-log entry of one span. */
  function LogLine(style: LogStyle, text: string, sp: Span): string
  {
    var alt := Strip(Slice(text, sp.start + 2, sp.altClose));
    var body := Strip(Slice(text, sp.bodyOpen + 1, sp.bodyClose));
    match (style, sp.kind)
    case (AppLog, Inline) => "inline-image"
    case (AppLog, Reference) => "ref-image"
    case (LegacyLog, Inline) => "markdown:" + OrElse(alt, "(no alt)") + " -> " + OrElse(body, "(empty)")
    case (LegacyLog, Reference) => "markdown_ref:" + OrElse(alt, "(no alt)") + "[" + OrElse(body, "(implicit)") + "]"
  }

  function Logs(style: LogStyle, text: string, spans: seq<Span>): (log: seq<string>)
    ensures |log| == |spans|
    ensures forall k | 0 <= k < |spans| :: log[k] == LogLine(style, text, spans[k])
  {
    if spans == [] then [] else [LogLine(style, text, spans[0])] + Logs(style, text, spans[1..])
  }


  lemma ImageAtNone(text: string, i: nat)
    requires i < |text|
    requires !OpensImage(text, i) || FindClose(text, i + 1, '[', ']').None?
    ensures ImageAt(text, i).None?
  {
  }

  /** What the scan decides once the alt text closes at `altClose` and the
      whitespace after it ends at `j`. */
  lemma ImageAtAfterAlt(text: string, i: nat, altClose: nat, j: nat)
    requires i < |text| && OpensImage(text, i)
    requires FindClose(text, i + 1, '[', ']') == Some(altClose)
    requires j == SkipSpace(text, altClose + 1)
    ensures j < |text| && text[j] == '(' ==>
      ImageAt(text, i) == (match FindClose(text, j, '(', ')')
        case None => None
        case Some(c) => Some(Span(Inline, i, altClose, j, c)))
    ensures j < |text| && text[j] == '[' ==>
      ImageAt(text, i) == (match FindClose(text, j, '[', ']')
        case None => None
        case Some(c) => Some(Span(Reference, i, altClose, j, c)))
    ensures !(j < |text| && (text[j] == '(' || text[j] == '[')) ==> ImageAt(text, i).None?
  {
  }

  /** What the stripper loop keeps: the output so far followed by the pass
      from `i` is the whole pass, and likewise for the spans removed so far. */
  ghost predicate PassInvariant(text: string, i: nat, out: string, found: seq<Span>)
  {
    && i <= |text|
    && out + StripFrom(text, i).text == StripImages(text).text
    && found + StripFrom(text, i).spans == StripImages(text).spans
  }

  /** One step of the pass where no image starts at `i`: the code point is kept. */
  lemma KeepStep(text: string, i: nat, out: string, found: seq<Span>)
    requires i < |text| && ImageAt(text, i).None?
    requires PassInvariant(text, i, out, found)
    ensures PassInvariant(text, i + 1, out + [text[i]], found)
  {
    assert StripFrom(text, i).text == [text[i]] + StripFrom(text, i + 1).text;
  }

  /** One step of the pass where the image `sp` starts at `i`: it is skipped
      and recorded. */
  lemma DropStep(text: string, i: nat, sp: Span, out: string, found: seq<Span>)
    requires i < |text| && ImageAt(text, i) == Some(sp)
    requires PassInvariant(text, i, out, found)
    ensures PassInvariant(text, sp.bodyClose + 1, out, found + [sp])
  {
    DropSpans(text, i, sp);
  }

  lemma DropSpans(text: string, i: nat, sp: Span)
    requires i < |text| && ImageAt(text, i) == Some(sp)
    ensures StripFrom(text, i).text == StripFrom(text, sp.bodyClose + 1).text
    ensures StripFrom(text, i).spans == [sp] + StripFrom(text, sp.bodyClose + 1).spans
  {
  }

  /** Logging one more span appends its line. */
  lemma {:induction false} LogsSnoc(style: LogStyle, text: string, found: seq<Span>, sp: Span)
    ensures Logs(style, text, found + [sp]) == Logs(style, text, found) + [LogLine(style, text, sp)]
    decreases |found|
  {
    if found != [] {
      assert (found + [sp])[1..] == found[1..] + [sp];
      LogsSnoc(style, text, found[1..], sp);
    }
  }

  /** The recognition half of the loop body: at an unescaped `![`, match the
      alt text, skip whitespace, and match a `(...)` target or a `[...]` label. */
  method ScanImage(text: string, i: nat) returns (r: Option<Span>)
    requires i < |text|
    ensures r == ImageAt(text, i)
  {
    var n := |text|;
    if !(text[i] == '!' && (i == 0 || text[i - 1] != '\\') && i + 1 < n && text[i + 1] == '[') {
      ImageAtNone(text, i);
      return None;
    }
    var altClose := FindClosingDelimiter(text, i + 1, '[', ']');
    if altClose.None? {
      ImageAtNone(text, i);
      return None;
    }
    var j := altClose.value + 1;
    while j < n && IsSpace(text[j])
      invariant altClose.value + 1 <= j <= n
      invariant SkipSpace(text, j) == SkipSpace(text, altClose.value + 1)
      decreases n - j
    {
      j := j + 1;
    }
    ImageAtAfterAlt(text, i, altClose.value, j);
    if j < n && text[j] == '(' {
      var targetClose := FindClosingDelimiter(text, j, '(', ')');
      if targetClose.None? {
        return None;
      }
      return Some(Span(Inline, i, altClose.value, j, targetClose.value));
    }
    if j < n && text[j] == '[' {
      var labelClose := FindClosingDelimiter(text, j, '[', ']');
      if labelClose.None? {
        return None;
      }
      return Some(Span(Reference, i, altClose.value, j, labelClose.value));
    }
    return None;
  }

  /** The stripper loop: unmatched code points are copied, each recognised image
      is skipped and logged. */
  method StripMarkdownImages(text: string, style: LogStyle) returns (out: string, log: seq<string>)
    ensures out == StripImages(text).text
    ensures log == Logs(style, text, StripImages(text).spans)
  {
    out, log := "", [];
    ghost var found: seq<Span> := [];
    var i := 0;
    var n := |text|;
    PassStart(text);
    while i < n
      invariant PassInvariant(text, i, out, found)
      invariant log == Logs(style, text, found)
      decreases n - i
    {
      var image := ScanImage(text, i);
      if image.Some? {
        i, out, log, found := DropImage(text, style, i, image.value, out, log, found);
      } else {
        i, out := KeepChar(text, i, out, found);
      }
    }
    PassDone(text, out, found);
  }

  /** A recognised image is skipped and its log line appended. */
  method DropImage(text: string, style: LogStyle, i: nat, sp: Span, out: string, log: seq<string>, ghost found: seq<Span>)
    returns (i2: nat, out2: string, log2: seq<string>, ghost found2: seq<Span>)
    requires i < |text| && ImageAt(text, i) == Some(sp)
    requires PassInvariant(text, i, out, found) && log == Logs(style, text, found)
    ensures i < i2 && PassInvariant(text, i2, out2, found2) && log2 == Logs(style, text, found2)
  {
    DropStep(text, i, sp, out, found);
    LogsSnoc(style, text, found, sp);
    i2, out2, log2, found2 := sp.bodyClose + 1, out, log + [LogLine(style, text, sp)], found + [sp];
  }

  /** Any other code point is copied. */
  method KeepChar(text: string, i: nat, out: string, ghost found: seq<Span>) returns (i2: nat, out2: string)
    requires i < |text| && ImageAt(text, i).None?
    requires PassInvariant(text, i, out, found)
    ensures i < i2 && PassInvariant(text, i2, out2, found)
  {
    KeepStep(text, i, out, found);
    i2, out2 := i + 1, out + [text[i]];
  }

  lemma PassStart(text: string)
    ensures PassInvariant(text, 0, "", [])
  {
  }

  lemma PassDone(text: string, out: string, found: seq<Span>)
    requires PassInvariant(text, |text|, out, found)
    ensures out == StripImages(text).text
    ensures found == StripImages(text).spans
  {
    assert StripFrom(text, |text|) == Stripped("", []);
    assert out + "" == out;
    assert found + [] == found;
  }

  // ---------------------------------------------------------------------------
  // What the pass does, stated independently of the scan

  /** `spans` lie in `text` from position `from` on, in order and disjoint. */
  ghost predicate Ordered(text: string, from: nat, spans: seq<Span>)
    decreases |spans|
  {
    spans == [] ||
    (&& from <= spans[0].start <= spans[0].bodyClose < |text|
     && Ordered(text, spans[0].bodyClose + 1, spans[1..]))
  }

  /** `text[from..]` with the spans cut out. */
  ghost function Remaining(text: string, from: nat, spans: seq<Span>): string
    requires from <= |text| && Ordered(text, from, spans)
    decreases |spans|
  {
    if spans == [] then text[from..]
    else text[from..spans[0].start] + Remaining(text, spans[0].bodyClose + 1, spans[1..])
  }

  /** Every image the scan recognises is a deletable span. */
  lemma ImageAtValid(text: string, i: nat)
    requires i < |text| && ImageAt(text, i).Some?
    ensures ValidSpan(text, ImageAt(text, i).value)
  {
  }

  /** Keeping the code point at `i` in front of the spans that follow it. */
  lemma RemainingKeep(text: string, i: nat, spans: seq<Span>)
    requires i < |text| && Ordered(text, i + 1, spans)
    ensures Ordered(text, i, spans)
    ensures Remaining(text, i, spans) == [text[i]] + Remaining(text, i + 1, spans)
  {
    if spans == [] {
      assert text[i..] == [text[i]] + text[i + 1..];
    } else {
      var st := spans[0].start;
      var r := Remaining(text, spans[0].bodyClose + 1, spans[1..]);
      assert text[i..st] == [text[i]] + text[i + 1..st];
      assert Remaining(text, i + 1, spans) == text[i + 1..st] + r;
      assert Remaining(text, i, spans) == text[i..st] + r;
    }
  }

  lemma {:induction false} StripFromDeletes(text: string, i: nat)
    requires i <= |text|
    ensures Ordered(text, i, StripFrom(text, i).spans)
    ensures StripFrom(text, i).text == Remaining(text, i, StripFrom(text, i).spans)
    decreases |text| - i
  {
    if i < |text| {
      match ImageAt(text, i)
      case Some(sp) =>
        var rest := StripFrom(text, sp.bodyClose + 1);
        StripFromDeletes(text, sp.bodyClose + 1);
        RemainingDrop(text, sp, rest.spans);
        assert StripFrom(text, i) == Stripped(rest.text, [sp] + rest.spans);
      case None =>
        var rest := StripFrom(text, i + 1);
        StripFromDeletes(text, i + 1);
        RemainingKeep(text, i, rest.spans);
        assert StripFrom(text, i) == Stripped([text[i]] + rest.text, rest.spans);
    }
  }

  /** Cutting out a span that starts where the remainder starts. */
  lemma RemainingDrop(text: string, sp: Span, spans: seq<Span>)
    requires sp.start <= sp.bodyClose < |text| && Ordered(text, sp.bodyClose + 1, spans)
    ensures Ordered(text, sp.start, [sp] + spans)
    ensures Remaining(text, sp.start, [sp] + spans) == Remaining(text, sp.bodyClose + 1, spans)
  {
    var all := [sp] + spans;
    assert all[0] == sp && all[1..] == spans;
    assert text[sp.start..sp.start] == "";
  }

  lemma {:induction false} StripFromValid(text: string, i: nat)
    requires i <= |text|
    ensures forall sp | sp in StripFrom(text, i).spans :: ValidSpan(text, sp)
    decreases |text| - i
  {
    if i < |text| {
      match ImageAt(text, i)
      case Some(sp) =>
        StripFromValid(text, sp.bodyClose + 1);
        ImageAtValid(text, i);
      case None =>
        StripFromValid(text, i + 1);
    }
  }

  /** From `from` on, `spans` are exactly the images a left-to-right scan
      finds: none is recognised before the first span, the first span is the
      image recognised at its start, and the scan resumes after its closer. */
  ghost predicate Maximal(text: string, from: nat, spans: seq<Span>)
    decreases |spans|
  {
    if spans == [] then forall k | from <= k < |text| :: ImageAt(text, k).None?
    else
      && (forall k | from <= k < spans[0].start && k < |text| :: ImageAt(text, k).None?)
      && spans[0].start < |text|
      && ImageAt(text, spans[0].start) == Some(spans[0])
      && Maximal(text, spans[0].bodyClose + 1, spans[1..])
  }

  /** A position where no image is recognised extends the scan by one. */
  lemma MaximalKeep(text: string, i: nat, spans: seq<Span>)
    requires i < |text| && ImageAt(text, i).None? && Maximal(text, i + 1, spans)
    ensures Maximal(text, i, spans)
  {
  }

  lemma {:induction false} StripFromMaximal(text: string, i: nat)
    requires i <= |text|
    ensures Maximal(text, i, StripFrom(text, i).spans)
    decreases |text| - i
  {
    if i < |text| {
      match ImageAt(text, i)
      case Some(sp) =>
        var rest := StripFrom(text, sp.bodyClose + 1);
        StripFromMaximal(text, sp.bodyClose + 1);
        var all := [sp] + rest.spans;
        assert all[0] == sp && all[1..] == rest.spans;
        assert StripFrom(text, i).spans == all;
      case None =>
        StripFromMaximal(text, i + 1);
        MaximalKeep(text, i, StripFrom(text, i + 1).spans);
        assert StripFrom(text, i).spans == StripFrom(text, i + 1).spans;
    }
  }

  /** The stripper's output is its input with the logged spans cut out; the
      spans are in document order, disjoint, and each is `![alt]`, optional
      whitespace, and a matched `(target)` or `[label]`; and they are every
      image the scan reaches, so nothing recognised is left behind. */
  lemma StripDeletesSpans(text: string)
    ensures Ordered(text, 0, StripImages(text).spans)
    ensures StripImages(text).text == Remaining(text, 0, StripImages(text).spans)
    ensures forall sp | sp in StripImages(text).spans :: ValidSpan(text, sp)
    ensures Maximal(text, 0, StripImages(text).spans)
  {
    StripFromDeletes(text, 0);
    StripFromValid(text, 0);
    StripFromMaximal(text, 0);
  }

  /** A `!` after a backslash never starts a removed span. */
  lemma EscapedBangNeverStarts(text: string, k: nat)
    requires 0 < k < |text| && text[k - 1] == '\\'
    ensures forall sp | sp in StripImages(text).spans :: sp.start != k
  {
    StripFromValid(text, 0);
  }

  /** Text in which no `!` is directly followed by `[` passes through unchanged
      with an empty log. */
  lemma NoOpenerUnchanged(text: string)
    requires forall k | 0 <= k < |text| - 1 :: !(text[k] == '!' && text[k + 1] == '[')
    ensures StripImages(text) == Stripped(text, [])
  {
    NoOpenerFrom(text, 0);
  }

  lemma {:induction false} NoOpenerFrom(text: string, i: nat)
    requires i <= |text|
    requires forall k | i <= k < |text| - 1 :: !(text[k] == '!' && text[k + 1] == '[')
    ensures StripFrom(text, i) == Stripped(text[i..], [])
    decreases |text| - i
  {
    if i < |text| {
      assert !OpensImage(text, i);
      NoOpenerFrom(text, i + 1);
      assert text[i..] == [text[i]] + text[i + 1..];
    }
  }

  // ---------------------------------------------------------------------------
  // Worked inputs

  lemma UnterminatedExampleScan()
    ensures ImageAt("![alt](unterminated", 0) == None
  {
    var t := "![alt](unterminated";
    UnterminatedAlt();
    UnterminatedBody();
    assert SkipSpace(t, 6) == 6;
  }

  lemma UnterminatedAlt()
    ensures ScanFrom("![alt](unterminated", 1, 0, '[', ']') == Some(5)
  {
  }

  lemma UnterminatedBody()
    ensures ScanFrom("![alt](unterminated", 6, 0, '(', ')') == None
  {
    assert ScanFrom("![alt](unterminated", 13, 1, '(', ')') == None;
  }

  /** An image whose target never closes is kept verbatim, with no log entry. */
  lemma UnterminatedTargetKept()
    ensures StripImages("![alt](unterminated") == Stripped("![alt](unterminated", [])
  {
    var t := "![alt](unterminated";
    UnterminatedExampleScan();
    NoOpenerFrom(t, 1);
    assert t[0..] == t;
    assert t[1..] == t[0..][1..];
  }

  lemma InlineExampleScan()
    ensures ImageAt("![alt](x.png)", 0) == Some(Span(Inline, 0, 5, 6, 12))
  {
    var t := "![alt](x.png)";
    assert ScanFrom(t, 1, 0, '[', ']') == Some(5);
    assert SkipSpace(t, 6) == 6;
    assert ScanFrom(t, 6, 0, '(', ')') == Some(12);
  }

  lemma InlineExampleFields()
    ensures Strip(Slice("![alt](x.png)", 2, 5)) == "alt"
    ensures Strip(Slice("![alt](x.png)", 7, 12)) == "x.png"
  {
    var t := "![alt](x.png)";
    assert Slice(t, 2, 5) == "alt";
    StripUnpadded("alt");
    assert Slice(t, 7, 12) == "x.png";
    StripUnpadded("x.png");
  }

  lemma InlineExampleStrip()
    ensures StripImages("![alt](x.png)") == Stripped("", [Span(Inline, 0, 5, 6, 12)])
  {
    var t := "![alt](x.png)";
    InlineExampleScan();
    assert StripFrom(t, 13) == Stripped("", []);
  }

  /** The command-line copy logs alt text and target of an inline image; the
      web-service copy logs only its kind. */
  lemma InlineImageLog()
    ensures StripImages("![alt](x.png)").text == ""
    ensures Logs(LegacyLog, "![alt](x.png)", StripImages("![alt](x.png)").spans) == ["markdown:alt -> x.png"]
    ensures Logs(AppLog, "![alt](x.png)", StripImages("![alt](x.png)").spans) == ["inline-image"]
  {
    InlineExampleStrip();
    InlineExampleLine();
    LogsSingle(LegacyLog, "![alt](x.png)", Span(Inline, 0, 5, 6, 12));
    LogsSingle(AppLog, "![alt](x.png)", Span(Inline, 0, 5, 6, 12));
  }

  lemma InlineExampleLine()
    ensures LogLine(LegacyLog, "![alt](x.png)", Span(Inline, 0, 5, 6, 12)) == "markdown:alt -> x.png"
  {
    InlineExampleFields();
  }

  lemma LogsSingle(style: LogStyle, text: string, sp: Span)
    ensures Logs(style, text, [sp]) == [LogLine(style, text, sp)]
  {
  }

  lemma NestedExampleScan()
    ensures ImageAt("!![a](b)[c](d)", 0) == None
    ensures ImageAt("!![a](b)[c](d)", 1) == Some(Span(Inline, 1, 4, 5, 7))
    ensures ImageAt("![c](d)", 0) == Some(Span(Inline, 0, 3, 4, 6))
  {
    var t := "!![a](b)[c](d)";
    assert FindClose(t, 2, '[', ']') == Some(4);
    assert SkipSpace(t, 5) == 5;
    assert FindClose(t, 5, '(', ')') == Some(7);
    var u := "![c](d)";
    assert FindClose(u, 1, '[', ']') == Some(3);
    assert SkipSpace(u, 4) == 4;
    assert FindClose(u, 4, '(', ')') == Some(6);
  }

  lemma NestedFirstPass()
    ensures StripImages("!![a](b)[c](d)").text == "![c](d)"
  {
    NestedExampleScan();
    NestedTail();
  }

  lemma NestedTail()
    ensures StripFrom("!![a](b)[c](d)", 1).text == "[c](d)"
  {
    var t := "!![a](b)[c](d)";
    NestedExampleScan();
    NoOpenerFrom(t, 8);
    assert t[8..] == "[c](d)";
  }

  lemma NestedSecondPass()
    ensures StripImages("![c](d)").text == ""
  {
    NestedExampleScan();
    assert StripFrom("![c](d)", 7) == Stripped("", []);
  }

  /** One pass is not always enough: removing an image can bring a `!` next to
      a `[` that follows it. */
  lemma StripNotIdempotent()
    ensures StripImages(StripImages("!![a](b)[c](d)").text) != StripImages("!![a](b)[c](d)")
    ensures StripImages("!![a](b)[c](d)").text == "![c](d)"
    ensures StripImages("![c](d)").text == ""
  {
    NestedFirstPass();
    NestedSecondPass();
  }
}
