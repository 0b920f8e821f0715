/** The blockquote attribution injector `_inject_attribution_to_blockquotes`:
    every maximal run of lines whose `lstrip` starts with `>` is followed by a
    five-line raw-TeX attribution, unless the last ten lines of the run already
    carry one. The web-service copy treats only the attribution text as an
    existing marker; the command-line copy also treats the default attribution
    as one. */
module Blockquotes {
  import opened PyStr

  /** A line of a blockquote: after leading whitespace it starts with `>`. */
  predicate IsQuote(line: string)
  {
    var l := LStrip(line); l != [] && l[0] == '>'
  }

  /** The five quoted TeX lines appended to an unmarked blockquote. */
  function Snippet(attr: string): seq<string>
  {
    [ ">",
      "> \\par\\vspace{0.8\\baselineskip}",
      "> \\begin{flushright}\\footnotesize",
      "> --- " + attr,
      "> \\end{flushright}" ]
  }

  /** `any(marker and marker in tail for marker in markers)` */
  predicate AnyMarker(tail: string, markers: seq<string>)
  {
    markers != [] && ((markers[0] != "" && Contains(tail, markers[0])) || AnyMarker(tail, markers[1..]))
  }

  /** The markers of the web-service copy: the attribution text. */
  function AppMarkers(attr: string): seq<string>
  {
    [attr]
  }

  /** The markers of the command-line copy: the attribution text, and the
      default attribution when it is non-empty and different. */
  function LegacyMarkers(attr: string, default: string): seq<string>
  {
    if default != "" && default != attr then [attr, default] else [attr]
  }

  /** The last ten lines of the block, joined by `\n`, already show an
      attribution. */
  predicate HasAttribution(block: seq<string>, markers: seq<string>)
  {
    var tail := Join(LastN(block, 10), "\n");
    Contains(tail, "\\begin{flushright}") || Contains(tail, "\\QuoteAttribution") || AnyMarker(tail, markers)
  }

  /** A block as it is emitted: unchanged if marked, else with the snippet. */
  function CloseBlock(block: seq<string>, attr: string, markers: seq<string>): seq<string>
  {
    if HasAttribution(block, markers) then block else block + Snippet(attr)
  }

  /** The number of quote lines at the front of `lines`. */
  function RunLength(lines: seq<string>): (j: nat)
    ensures j <= |lines|
    ensures lines != [] && IsQuote(lines[0]) ==> j >= 1
  {
    if lines != [] && IsQuote(lines[0]) then 1 + RunLength(lines[1..]) else 0
  }

  /** The injector on lines. */
  function Inject(lines: seq<string>, attr: string, markers: seq<string>): seq<string>
    decreases |lines|
  {
    if lines == [] then []
    else if IsQuote(lines[0]) then
      var j := RunLength(lines);
      CloseBlock(lines[..j], attr, markers) + Inject(lines[j..], attr, markers)
    else [lines[0]] + Inject(lines[1..], attr, markers)
  }

  /** The injector on text: split into lines, inject, rejoin with `\n`, and
      end in `\n` iff the input did. */
  function InjectText(text: string, attr: string, markers: seq<string>): string
  {
    JoinLines(Inject(SplitLines(text), attr, markers), EndsWith(text, "\n"))
  }

  /** The injector as the source runs it: an outer loop over lines; each
      blockquote is collected by `CollectBlock`. */
  method InjectAttributionToBlockquotes(mdText: string, attr: string, markers: seq<string>) returns (r: string)
    ensures r == InjectText(mdText, attr, markers)
  {
    var lines := SplitLines(mdText);
    var out: seq<string> := [];
    var i := 0;
    var n := |lines|;
    assert lines[0..] == lines;
    while i < n
      invariant i <= n
      invariant out + Inject(lines[i..], attr, markers) == Inject(lines, attr, markers)
      decreases n - i
    {
      var line := lines[i];
      QuoteIff(line);
      if StartsWith(LStrip(line), ">") {
        out, i := TakeRun(lines, i, attr, markers, out);
        continue;
      }
      PlainStep(lines, i, attr, markers, out);
      out := out + [line];
      i := i + 1;
    }
    assert lines[i..] == [];
    assert out == Inject(lines, attr, markers);
    r := JoinLines(out, EndsWith(mdText, "\n"));
  }

  /** The source's test for a blockquote line. */
  lemma QuoteIff(line: string)
    ensures IsQuote(line) <==> StartsWith(LStrip(line), ">")
  {
  }

  /** The quote branch of the outer loop: collect the run from `i`, close it,
      and emit it. */
  method TakeRun(lines: seq<string>, i: nat, attr: string, markers: seq<string>, out: seq<string>)
    returns (out2: seq<string>, i2: nat)
    requires i < |lines| && IsQuote(lines[i])
    requires out + Inject(lines[i..], attr, markers) == Inject(lines, attr, markers)
    ensures i < i2 <= |lines|
    ensures out2 + Inject(lines[i2..], attr, markers) == Inject(lines, attr, markers)
  {
    var block;
    block, i2 := CollectBlock(lines, i);
    block := CloseRun(block, attr, markers);
    QuoteStep(lines, i, i2, attr, markers, out);
    out2 := out + block;
  }

  /** The attribution check and the append, for a collected block. */
  method CloseRun(block: seq<string>, attr: string, markers: seq<string>) returns (r: seq<string>)
    requires block != []
    ensures r == CloseBlock(block, attr, markers)
  {
    r := block;
    var joinedTail := if block != [] then Join(LastN(block, 10), "\n") else "";
    var hasAttr := Contains(joinedTail, "\\begin{flushright}")
      || Contains(joinedTail, "\\QuoteAttribution")
      || AnyMarker(joinedTail, markers);
    if !hasAttr {
      r := r + Snippet(attr);
    }
  }

  /** The inner loop: the maximal run of quote lines from `start`. */
  method CollectBlock(lines: seq<string>, start: nat) returns (block: seq<string>, i: nat)
    requires start < |lines| && IsQuote(lines[start])
    ensures start < i <= |lines| && block == lines[start..i]
    ensures i == start + RunLength(lines[start..])
    ensures i == |lines| || !IsQuote(lines[i])
  {
    var n := |lines|;
    i := start;
    block := [];
    RunHead(lines, start);
    while i < n && StartsWith(LStrip(lines[i]), ">")
      invariant start <= i <= n
      invariant block == lines[start..i]
      invariant RunLength(lines[start..]) == (i - start) + RunLength(lines[i..])
      decreases n - i
    {
      QuoteIff(lines[i]);
      RunStep(lines, i);
      block := block + [lines[i]];
      i := i + 1;
    }
    if i < n {
      QuoteIff(lines[i]);
    }
    RunEnds(lines, i);
  }

  /** A run that starts at a quote line has at least that line. */
  lemma RunHead(lines: seq<string>, start: nat)
    requires start < |lines| && IsQuote(lines[start])
    ensures RunLength(lines[start..]) >= 1
  {
    assert lines[start..][0] == lines[start];
  }

  lemma RunStep(lines: seq<string>, i: nat)
    requires i < |lines| && IsQuote(lines[i])
    ensures RunLength(lines[i..]) == 1 + RunLength(lines[i + 1..])
  {
    assert lines[i..][0] == lines[i];
    assert lines[i..][1..] == lines[i + 1..];
  }

  lemma QuoteStep(lines: seq<string>, start: nat, i: nat, attr: string, markers: seq<string>, out: seq<string>)
    requires start < i <= |lines| && IsQuote(lines[start])
    requires RunLength(lines[start..]) == (i - start) + RunLength(lines[i..])
    requires i == |lines| || !IsQuote(lines[i])
    requires out + Inject(lines[start..], attr, markers) == Inject(lines, attr, markers)
    ensures (out + CloseBlock(lines[start..i], attr, markers)) + Inject(lines[i..], attr, markers)
         == Inject(lines, attr, markers)
  {
    RunEnds(lines, i);
    InjectRunAt(lines, start, i, attr, markers);
    AppendAssoc(out, CloseBlock(lines[start..i], attr, markers), Inject(lines[i..], attr, markers));
  }

  /** The unfolding at the quote run `lines[start..i]`. */
  lemma InjectRunAt(lines: seq<string>, start: nat, i: nat, attr: string, markers: seq<string>)
    requires start < i <= |lines| && IsQuote(lines[start])
    requires RunLength(lines[start..]) == i - start
    ensures Inject(lines[start..], attr, markers)
         == CloseBlock(lines[start..i], attr, markers) + Inject(lines[i..], attr, markers)
  {
    SliceSplit(lines, start, i);
    InjectQuoteAt(lines[start..], i - start, lines[start..i], lines[i..], attr, markers);
  }

  /** No quote run starts at the end or at a non-quote line. */
  lemma RunEnds(lines: seq<string>, i: nat)
    requires i <= |lines| && (i == |lines| || !IsQuote(lines[i]))
    ensures RunLength(lines[i..]) == 0
  {
    if i < |lines| {
      assert lines[i..][0] == lines[i];
    }
  }

  lemma SliceSplit<T>(s: seq<T>, a: nat, b: nat)
    requires a <= b <= |s|
    ensures s[a..][..b - a] == s[a..b] && s[a..][b - a..] == s[b..]
  {
  }

  /** The unfolding at a quote line, with the run and the rest named. */
  lemma InjectQuoteAt(rest: seq<string>, j: nat, block: seq<string>, after: seq<string>,
                      attr: string, markers: seq<string>)
    requires rest != [] && IsQuote(rest[0]) && RunLength(rest) == j
    requires j <= |rest| && rest[..j] == block && rest[j..] == after
    ensures Inject(rest, attr, markers) == CloseBlock(block, attr, markers) + Inject(after, attr, markers)
  {
    InjectQuote(rest, attr, markers);
  }

  /** One unfolding of `Inject` at a quote line. */
  lemma InjectQuote(lines: seq<string>, attr: string, markers: seq<string>)
    requires lines != [] && IsQuote(lines[0])
    ensures Inject(lines, attr, markers)
         == CloseBlock(lines[..RunLength(lines)], attr, markers) + Inject(lines[RunLength(lines)..], attr, markers)
  {
  }

  lemma PlainStep(lines: seq<string>, i: nat, attr: string, markers: seq<string>, out: seq<string>)
    requires i < |lines| && !IsQuote(lines[i])
    requires out + Inject(lines[i..], attr, markers) == Inject(lines, attr, markers)
    ensures (out + [lines[i]]) + Inject(lines[i + 1..], attr, markers) == Inject(lines, attr, markers)
  {
    assert lines[i..][0] == lines[i];
    assert lines[i..][1..] == lines[i + 1..];
  }

  // ---------------------------------------------------------------------------
  // Blocks and the lines between them

  /** Every line is a blockquote line. */
  ghost predicate AllQuotes(lines: seq<string>)
  {
    forall k | 0 <= k < |lines| :: IsQuote(lines[k])
  }

  /** The maximal runs of quote lines, in order. */
  function Blocks(lines: seq<string>): seq<seq<string>>
    decreases |lines|
  {
    if lines == [] then []
    else if IsQuote(lines[0]) then [lines[..RunLength(lines)]] + Blocks(lines[RunLength(lines)..])
    else Blocks(lines[1..])
  }

  /** The lines that are not blockquote lines, in order. */
  function NonQuotes(lines: seq<string>): seq<string>
    decreases |lines|
  {
    if lines == [] then []
    else if IsQuote(lines[0]) then NonQuotes(lines[1..])
    else [lines[0]] + NonQuotes(lines[1..])
  }

  /** Each block as the injector emits it. */
  function CloseAll(blocks: seq<seq<string>>, attr: string, markers: seq<string>): seq<seq<string>>
    decreases |blocks|
  {
    if blocks == [] then [] else [CloseBlock(blocks[0], attr, markers)] + CloseAll(blocks[1..], attr, markers)
  }

  /** The number of blocks without an attribution in their last ten lines. */
  function Unmarked(blocks: seq<seq<string>>, markers: seq<string>): nat
    decreases |blocks|
  {
    if blocks == [] then 0
    else (if HasAttribution(blocks[0], markers) then 0 else 1) + Unmarked(blocks[1..], markers)
  }

  /** A line whose first code point is `>` is a quote line. */
  lemma GtIsQuote(line: string)
    requires line != [] && line[0] == '>'
    ensures IsQuote(line)
  {
    assert LStrip(line) == line;
  }

  lemma SnippetQuotes(attr: string)
    ensures AllQuotes(Snippet(attr))
  {
    var sn := Snippet(attr);
    forall k | 0 <= k < |sn|
      ensures IsQuote(sn[k])
    {
      GtIsQuote(sn[k]);
    }
  }

  /** The run at the front of `lines` is all quotes and is maximal. */
  lemma {:induction false} RunFacts(lines: seq<string>)
    ensures AllQuotes(lines[..RunLength(lines)])
    ensures RunLength(lines) == |lines| || !IsQuote(lines[RunLength(lines)])
    decreases |lines|
  {
    if lines != [] && IsQuote(lines[0]) {
      RunFacts(lines[1..]);
      assert lines[..RunLength(lines)] == [lines[0]] + lines[1..][..RunLength(lines[1..])];
    }
  }

  /** A block followed by a non-quote line (or nothing) is one whole run. */
  lemma {:induction false} RunOf(c: seq<string>, y: seq<string>)
    requires c != [] && AllQuotes(c)
    requires y == [] || !IsQuote(y[0])
    ensures RunLength(c + y) == |c|
    ensures (c + y)[..|c|] == c && (c + y)[|c|..] == y
    decreases |c|
  {
    assert (c + y)[0] == c[0];
    assert (c + y)[1..] == c[1..] + y;
    if |c| > 1 {
      RunOf(c[1..], y);
    } else {
      assert c[1..] + y == y;
    }
  }

  lemma InjectPlain(x: string, y: seq<string>, attr: string, markers: seq<string>)
    requires !IsQuote(x)
    ensures Inject([x] + y, attr, markers) == [x] + Inject(y, attr, markers)
    ensures Blocks([x] + y) == Blocks(y)
    ensures NonQuotes([x] + y) == [x] + NonQuotes(y)
  {
    assert ([x] + y)[1..] == y;
  }

  /** An emitted block is all quotes, non-empty, and marked. */
  lemma CloseBlockMarked(block: seq<string>, attr: string, markers: seq<string>)
    requires block != [] && AllQuotes(block)
    ensures var c := CloseBlock(block, attr, markers);
      c != [] && AllQuotes(c) && HasAttribution(c, markers)
  {
    if !HasAttribution(block, markers) {
      var c := block + Snippet(attr);
      SnippetQuotes(attr);
      assert AllQuotes(c) by {
        forall k | 0 <= k < |c|
          ensures IsQuote(c[k])
        {
          if k >= |block| {
            assert c[k] == Snippet(attr)[k - |block|];
          }
        }
      }
      var tail := LastN(c, 10);
      var k := |tail| - 3;
      assert tail[k] == c[|c| - 3] == "> \\begin{flushright}\\footnotesize";
      var sub := "\\begin{flushright}";
      FlushrightInSnippet();
      ContainsAt(tail[k], sub, 2);
      JoinContainsPart(tail, "\n", k, sub);
    }
  }

  lemma FlushrightInSnippet()
    ensures IsAt("> \\begin{flushright}\\footnotesize", "\\begin{flushright}", 2)
  {
    var line := "> \\begin{flushright}\\footnotesize";
    var sub := "\\begin{flushright}";
    assert forall i | 0 <= i < |sub| :: line[2 + i] == sub[i];
  }

  /** A marked run followed by a non-quote line passes through unchanged. */
  lemma InjectMarked(c: seq<string>, y: seq<string>, attr: string, markers: seq<string>)
    requires c != [] && AllQuotes(c) && HasAttribution(c, markers)
    requires y == [] || !IsQuote(y[0])
    ensures Inject(c + y, attr, markers) == c + Inject(y, attr, markers)
    ensures Blocks(c + y) == [c] + Blocks(y)
  {
    RunOf(c, y);
    assert (c + y)[0] == c[0];
  }

  /** The output starts with a non-quote line whenever the input does. */
  lemma InjectHead(lines: seq<string>, attr: string, markers: seq<string>)
    requires lines == [] || !IsQuote(lines[0])
    ensures var out := Inject(lines, attr, markers);
      out == [] || !IsQuote(out[0])
  {
  }

  /** Running the injector twice with the same attribution and markers gives
      the same lines as running it once. */
  lemma {:induction false} InjectIdempotent(lines: seq<string>, attr: string, markers: seq<string>)
    ensures Inject(Inject(lines, attr, markers), attr, markers) == Inject(lines, attr, markers)
    decreases |lines|
  {
    if lines == [] {
    } else if IsQuote(lines[0]) {
      var j := RunLength(lines);
      var rest := lines[j..];
      var c := CloseBlock(lines[..j], attr, markers);
      RunFacts(lines);
      CloseBlockMarked(lines[..j], attr, markers);
      InjectIdempotent(rest, attr, markers);
      InjectHead(rest, attr, markers);
      InjectMarked(c, Inject(rest, attr, markers), attr, markers);
    } else {
      InjectPlain(lines[0], Inject(lines[1..], attr, markers), attr, markers);
      InjectIdempotent(lines[1..], attr, markers);
    }
  }

  /** The blocks of the output are the blocks of the input, each emitted by
      `CloseBlock`: a block gets the snippet exactly when its last ten lines
      carry no attribution. */
  lemma {:induction false} InjectBlocks(lines: seq<string>, attr: string, markers: seq<string>)
    ensures Blocks(Inject(lines, attr, markers)) == CloseAll(Blocks(lines), attr, markers)
    decreases |lines|
  {
    if lines == [] {
    } else if IsQuote(lines[0]) {
      var j := RunLength(lines);
      var rest := lines[j..];
      var c := CloseBlock(lines[..j], attr, markers);
      RunFacts(lines);
      CloseBlockMarked(lines[..j], attr, markers);
      InjectBlocks(rest, attr, markers);
      InjectHead(rest, attr, markers);
      InjectMarked(c, Inject(rest, attr, markers), attr, markers);
      assert Blocks(lines) == [lines[..j]] + Blocks(rest);
      assert CloseAll([lines[..j]] + Blocks(rest), attr, markers) == [c] + CloseAll(Blocks(rest), attr, markers) by {
        assert ([lines[..j]] + Blocks(rest))[1..] == Blocks(rest);
      }
    } else {
      InjectPlain(lines[0], lines[1..], attr, markers);
      InjectPlain(lines[0], Inject(lines[1..], attr, markers), attr, markers);
      assert lines == [lines[0]] + lines[1..];
      InjectBlocks(lines[1..], attr, markers);
    }
  }

  lemma {:induction false} NonQuotesAppend(a: seq<string>, b: seq<string>)
    ensures NonQuotes(a + b) == NonQuotes(a) + NonQuotes(b)
    decreases |a|
  {
    if a != [] {
      assert (a + b)[0] == a[0];
      assert (a + b)[1..] == a[1..] + b;
      NonQuotesAppend(a[1..], b);
    } else {
      assert a + b == b;
    }
  }

  lemma {:induction false} NonQuotesOfQuotes(c: seq<string>)
    requires AllQuotes(c)
    ensures NonQuotes(c) == []
    decreases |c|
  {
    if c != [] {
      NonQuotesOfQuotes(c[1..]);
    }
  }

  /** The lines outside blockquotes come through unchanged and in order. */
  lemma {:induction false} InjectNonQuotes(lines: seq<string>, attr: string, markers: seq<string>)
    ensures NonQuotes(Inject(lines, attr, markers)) == NonQuotes(lines)
    decreases |lines|
  {
    if lines == [] {
    } else if IsQuote(lines[0]) {
      var j := RunLength(lines);
      RunSplit(lines);
      InjectQuote(lines, attr, markers);
      InjectNonQuotes(lines[j..], attr, markers);
      CloseBlockMarked(lines[..j], attr, markers);
      NonQuotesRun(lines[..j], lines[j..], CloseBlock(lines[..j], attr, markers), Inject(lines[j..], attr, markers));
    } else {
      var x, y := lines[0], lines[1..];
      assert lines == [x] + y;
      InjectPlain(x, y, attr, markers);
      InjectPlain(x, Inject(y, attr, markers), attr, markers);
      InjectNonQuotes(y, attr, markers);
    }
  }

  /** The run at the head of `lines`: non-empty, all quotes, and followed by
      the end or a non-quote line. */
  lemma RunSplit(lines: seq<string>)
    requires lines != [] && IsQuote(lines[0])
    ensures var j := RunLength(lines);
      && 0 < j <= |lines|
      && AllQuotes(lines[..j])
      && lines == lines[..j] + lines[j..]
      && (lines[j..] == [] || !IsQuote(lines[j..][0]))
  {
    RunFacts(lines);
    RunNext(lines, RunLength(lines));
  }

  lemma RunNext(lines: seq<string>, j: nat)
    requires j <= |lines| && (j == |lines| || !IsQuote(lines[j]))
    ensures lines == lines[..j] + lines[j..]
    ensures lines[j..] == [] || !IsQuote(lines[j..][0])
  {
    if j < |lines| {
      assert lines[j..][0] == lines[j];
    }
  }


  /** Quote runs contribute nothing to the non-quote lines. */
  lemma NonQuotesRun(block: seq<string>, rest: seq<string>, c: seq<string>, out: seq<string>)
    requires AllQuotes(block) && AllQuotes(c) && NonQuotes(out) == NonQuotes(rest)
    ensures NonQuotes(c + out) == NonQuotes(block + rest)
  {
    NonQuotesAppend(c, out);
    NonQuotesOfQuotes(c);
    NonQuotesAppend(block, rest);
    NonQuotesOfQuotes(block);
  }

  /** The output has five more lines per block that carried no attribution. */
  lemma {:induction false} InjectLength(lines: seq<string>, attr: string, markers: seq<string>)
    ensures |Inject(lines, attr, markers)| == |lines| + 5 * Unmarked(Blocks(lines), markers)
    decreases |lines|
  {
    if lines == [] {
    } else if IsQuote(lines[0]) {
      var j := RunLength(lines);
      var rest := lines[j..];
      InjectLength(rest, attr, markers);
      assert Blocks(lines) == [lines[..j]] + Blocks(rest);
      assert ([lines[..j]] + Blocks(rest))[1..] == Blocks(rest);
    } else {
      InjectLength(lines[1..], attr, markers);
    }
  }

  /** The command-line markers recognise the attribution and the default
      attribution, each only when non-empty. */
  lemma LegacyMarkersSpec(tail: string, attr: string, default: string)
    ensures AnyMarker(tail, LegacyMarkers(attr, default))
      <==> (attr != "" && Contains(tail, attr)) || (default != "" && Contains(tail, default))
  {
    var ms := LegacyMarkers(attr, default);
    if default != "" && default != attr {
      assert ms[1..] == [default];
      assert [default][1..] == [];
      assert AnyMarker(tail, [default]) <==> default != "" && Contains(tail, default);
      assert AnyMarker(tail, ms) <==> (attr != "" && Contains(tail, attr)) || AnyMarker(tail, [default]);
    } else {
      assert ms[1..] == [];
    }
  }

  /** The web-service marker recognises the attribution only when non-empty. */
  lemma AppMarkersSpec(tail: string, attr: string)
    ensures AnyMarker(tail, AppMarkers(attr)) <==> attr != "" && Contains(tail, attr)
  {
    assert AppMarkers(attr)[1..] == [];
  }

  // ---------------------------------------------------------------------------
  // Text-level idempotence

  lemma SnippetNoBreak(attr: string)
    requires NoBreak(attr)
    ensures forall l | l in Snippet(attr) :: NoBreak(l)
  {
    SnippetFixedNoBreak();
    NoBreakConcat("> --- ", attr);
  }

  lemma SnippetFixedNoBreak()
    ensures NoBreak(">") && NoBreak("> --- ") && NoBreak("> \\end{flushright}")
    ensures NoBreak("> \\par\\vspace{0.8\\baselineskip}")
    ensures NoBreak("> \\begin{flushright}\\footnotesize")
  {
    VspaceNoBreak();
    FlushrightNoBreak();
  }

  lemma VspaceNoBreak()
    ensures NoBreak("> \\par\\vspace{0.8\\baselineskip}")
  {
  }

  lemma FlushrightNoBreak()
    ensures NoBreak("> \\begin{flushright}\\footnotesize")
  {
  }

  lemma {:induction false} InjectNoBreak(lines: seq<string>, attr: string, markers: seq<string>)
    requires NoBreak(attr)
    requires forall l | l in lines :: NoBreak(l)
    ensures forall l | l in Inject(lines, attr, markers) :: NoBreak(l)
    decreases |lines|
  {
    if lines != [] {
      if IsQuote(lines[0]) {
        var j := RunLength(lines);
        var block := lines[..j];
        assert forall l | l in lines[j..] :: l in lines;
        assert forall l | l in block :: l in lines;
        InjectNoBreak(lines[j..], attr, markers);
        SnippetNoBreak(attr);
        var c := CloseBlock(block, attr, markers);
        assert forall l | l in c :: l in block || l in Snippet(attr);
      } else {
        assert lines[0] in lines;
        assert forall l | l in lines[1..] :: l in lines;
        InjectNoBreak(lines[1..], attr, markers);
      }
    }
  }

  /** The output is empty only for empty input. */
  lemma InjectEmpty(lines: seq<string>, attr: string, markers: seq<string>)
    ensures Inject(lines, attr, markers) == [] <==> lines == []
  {
    if lines != [] && IsQuote(lines[0]) {
      RunFacts(lines);
      CloseBlockMarked(lines[..RunLength(lines)], attr, markers);
    }
  }

  /** A whole run followed by a non-quote line (or nothing) is emitted by
      `CloseBlock`. */
  lemma InjectRun(c: seq<string>, y: seq<string>, attr: string, markers: seq<string>)
    requires c != [] && AllQuotes(c)
    requires y == [] || !IsQuote(y[0])
    ensures Inject(c + y, attr, markers) == CloseBlock(c, attr, markers) + Inject(y, attr, markers)
  {
    RunOf(c, y);
    assert (c + y)[0] == c[0];
  }

  lemma {:induction false} SnocAfterRun(c: seq<string>, rest: seq<string>, x: string, attr: string, markers: seq<string>)
    requires c != [] && AllQuotes(c) && !IsQuote(x)
    requires rest == [] || !IsQuote(rest[0])
    requires Inject(rest + [x], attr, markers) == Inject(rest, attr, markers) + [x]
    ensures Inject(c + rest + [x], attr, markers) == Inject(c + rest, attr, markers) + [x]
  {
    assert (rest + [x])[0] == if rest == [] then x else rest[0];
    calc {
      Inject(c + rest + [x], attr, markers);
      { assert c + rest + [x] == c + (rest + [x]); }
      Inject(c + (rest + [x]), attr, markers);
      { InjectRun(c, rest + [x], attr, markers); }
      CloseBlock(c, attr, markers) + Inject(rest + [x], attr, markers);
      CloseBlock(c, attr, markers) + (Inject(rest, attr, markers) + [x]);
      { AppendAssoc(CloseBlock(c, attr, markers), Inject(rest, attr, markers), [x]);
        InjectRun(c, rest, attr, markers); }
      Inject(c + rest, attr, markers) + [x];
    }
  }

  /** A final non-quote line is carried to the end of the output. */
  lemma {:induction false} InjectSnoc(a: seq<string>, x: string, attr: string, markers: seq<string>)
    requires !IsQuote(x)
    ensures Inject(a + [x], attr, markers) == Inject(a, attr, markers) + [x]
    decreases |a|
  {
    if a == [] {
      assert a + [x] == [x] + [];
      InjectPlain(x, [], attr, markers);
    } else if IsQuote(a[0]) {
      var j := RunLength(a);
      RunFacts(a);
      var c, rest := a[..j], a[j..];
      assert a == c + rest;
      InjectSnoc(rest, x, attr, markers);
      SnocAfterRun(c, rest, x, attr, markers);
    } else {
      assert a + [x] == [a[0]] + (a[1..] + [x]);
      InjectPlain(a[0], a[1..] + [x], attr, markers);
      InjectPlain(a[0], a[1..], attr, markers);
      assert a == [a[0]] + a[1..];
      InjectSnoc(a[1..], x, attr, markers);
    }
  }

  /** If the output ends in a non-quote line, the input ends in that line. */
  lemma {:induction false} InjectLastPlain(lines: seq<string>, attr: string, markers: seq<string>)
    requires Inject(lines, attr, markers) != []
    requires !IsQuote(Inject(lines, attr, markers)[|Inject(lines, attr, markers)| - 1])
    ensures lines != [] && lines[|lines| - 1] == Inject(lines, attr, markers)[|Inject(lines, attr, markers)| - 1]
    decreases |lines|
  {
    if IsQuote(lines[0]) {
      var j := RunLength(lines);
      var c := CloseBlock(lines[..j], attr, markers);
      var r := Inject(lines[j..], attr, markers);
      RunFacts(lines);
      CloseBlockMarked(lines[..j], attr, markers);
      assert Inject(lines, attr, markers) == c + r;
      QuotesThenPlain(c, r);
      InjectLastPlain(lines[j..], attr, markers);
      LastOfSuffix(lines, j);
    } else if |lines| > 1 {
      var r := Inject(lines[1..], attr, markers);
      assert Inject(lines, attr, markers) == [lines[0]] + r;
      InjectEmpty(lines[1..], attr, markers);
      assert ([lines[0]] + r)[|r|] == r[|r| - 1];
      InjectLastPlain(lines[1..], attr, markers);
      LastOfSuffix(lines, 1);
    }
  }

  /** A list of quote lines followed by `r` ends in a non-quote line only
      when `r` does, in the same line. */
  lemma QuotesThenPlain(c: seq<string>, r: seq<string>)
    requires AllQuotes(c) && c + r != [] && !IsQuote((c + r)[|c + r| - 1])
    ensures r != [] && (c + r)[|c + r| - 1] == r[|r| - 1] && !IsQuote(r[|r| - 1])
  {
    assert c + [] == c;
  }

  lemma LastOfSuffix(lines: seq<string>, j: nat)
    requires j <= |lines| && lines[j..] != []
    ensures lines[|lines| - 1] == lines[j..][|lines[j..]| - 1]
  {
  }

  /** Running the injector twice on a text gives the text of one run, for an
      attribution without line boundaries. */
  lemma InjectTextIdempotent(text: string, attr: string, markers: seq<string>)
    requires NoBreak(attr)
    ensures InjectText(InjectText(text, attr, markers), attr, markers) == InjectText(text, attr, markers)
  {
    var lines := SplitLines(text);
    var tr := EndsWith(text, "\n");
    var out := Inject(lines, attr, markers);
    SplitLinesNoBreak(text);
    if out != [] && !tr && out[|out| - 1] == "" {
      RejoinLastEmpty(lines, attr, markers);
    } else {
      InjectNoBreak(lines, attr, markers);
      InjectIdempotent(lines, attr, markers);
      RejoinKept(out, tr, attr, markers);
    }
  }

  lemma RejoinLastEmpty(lines: seq<string>, attr: string, markers: seq<string>)
    requires NoBreak(attr) && forall l | l in lines :: NoBreak(l)
    requires Inject(lines, attr, markers) != [] && Inject(lines, attr, markers)[|Inject(lines, attr, markers)| - 1] == ""
    ensures var out := Inject(lines, attr, markers);
      InjectText(JoinLines(out, false), attr, markers) == JoinLines(out, false)
  {
    var out := Inject(lines, attr, markers);
    InjectNoBreak(lines, attr, markers);
    LastEmptySplit(lines, attr, markers);
    var a := lines[..|lines| - 1];
    InjectIdempotent(a, attr, markers);
    RejoinDropsEmpty(out, Inject(a, attr, markers), attr, markers);
  }

  /** An injected text ending in an empty line came from lines ending in one. */
  lemma LastEmptySplit(lines: seq<string>, attr: string, markers: seq<string>)
    requires Inject(lines, attr, markers) != [] && Inject(lines, attr, markers)[|Inject(lines, attr, markers)| - 1] == ""
    ensures lines != []
    ensures Inject(lines, attr, markers) == Inject(lines[..|lines| - 1], attr, markers) + [""]
  {
    LastEmptyFromLines(lines, attr, markers);
    InjectDropLastEmpty(lines, attr, markers);
  }

  lemma LastEmptyFromLines(lines: seq<string>, attr: string, markers: seq<string>)
    requires Inject(lines, attr, markers) != [] && Inject(lines, attr, markers)[|Inject(lines, attr, markers)| - 1] == ""
    ensures lines != [] && lines[|lines| - 1] == ""
  {
    var out := Inject(lines, attr, markers);
    assert !IsQuote(out[|out| - 1]);
    InjectLastPlain(lines, attr, markers);
  }

  lemma InjectDropLastEmpty(lines: seq<string>, attr: string, markers: seq<string>)
    requires lines != [] && lines[|lines| - 1] == ""
    ensures Inject(lines, attr, markers) == Inject(lines[..|lines| - 1], attr, markers) + [""]
  {
    var a := lines[..|lines| - 1];
    assert lines == a + [""];
    InjectSnoc(a, "", attr, markers);
  }

  /** Rejoining lines the injector leaves alone gives a text the injector
      leaves alone, unless the last line is empty and no newline follows. */
  lemma RejoinKept(out: seq<string>, tr: bool, attr: string, markers: seq<string>)
    requires forall l | l in out :: NoBreak(l)
    requires Inject(out, attr, markers) == out
    requires !(out != [] && !tr && out[|out| - 1] == "")
    ensures InjectText(JoinLines(out, tr), attr, markers) == JoinLines(out, tr)
  {
    var first := JoinLines(out, tr);
    SplitJoin(out, tr);
    JoinLinesEndsWithNewline(out, tr);
    if out == [] {
      assert first == [] || first == "\n";
      if tr {
        assert Inject([""], attr, markers) == [""] by {
          assert !IsQuote("");
          assert [""] == [""] + [];
        }
      }
    }
  }

  /** A final empty line without a newline after it is absorbed by the
      split: the second run sees the lines before it and a trailing newline. */
  lemma RejoinDropsEmpty(out: seq<string>, init: seq<string>, attr: string, markers: seq<string>)
    requires forall l | l in out :: NoBreak(l)
    requires out == init + [""] && Inject(init, attr, markers) == init
    ensures InjectText(JoinLines(out, false), attr, markers) == JoinLines(out, false)
  {
    var first := JoinLines(out, false);
    SplitJoin(out, false);
    JoinLinesEndsWithNewline(out, false);
    assert out[..|out| - 1] == init;
    if init == [] {
      assert first == "";
      assert SplitLines(first) == [];
      assert Inject([], attr, markers) == [];
    } else {
      JoinAppend(init, "", "\n");
    }
  }

  /** Leading non-quote lines pass through in front of the rest. */
  lemma {:induction false} InjectPlainPrefix(a: seq<string>, b: seq<string>, attr: string, markers: seq<string>)
    requires forall k | 0 <= k < |a| :: !IsQuote(a[k])
    ensures Inject(a + b, attr, markers) == a + Inject(b, attr, markers)
    decreases |a|
  {
    if a != [] {
      var x, tail := a[0], a[1..];
      assert a == [x] + tail;
      assert forall k | 0 <= k < |tail| :: tail[k] == a[k + 1];
      AppendAssoc([x], tail, b);
      InjectPlain(x, tail + b, attr, markers);
      InjectPlainPrefix(tail, b, attr, markers);
      AppendAssoc([x], tail, Inject(b, attr, markers));
    } else {
      assert a + b == b;
    }
  }
}
