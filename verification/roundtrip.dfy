/** The metadata step writes its sidecar as the rendered front matter plus a
    newline; the converter, when no YAML library is present, reads the
    sidecar back line by line. Reading what was written gives back the
    three attribution fields, stripped, and nothing else. */
module RoundTrip {
  import opened PyStr
  import opened Values
  import opened MetadataFill
  import Sidecar

  /** A key as rendered: not blank, unpadded, with no colon, line break,
      leading `#` or leading `-`. */
  predicate PlainKey(k: string)
  {
    && k != ""
    && ':' !in k
    && NoBreak(k)
    && !IsSpace(k[0]) && !IsSpace(k[|k| - 1])
    && k[0] != '#' && k[0] != '-'
  }

  lemma AttributionKeysPlain()
    ensures PlainKey(University) && PlainKey(Year) && PlainKey(Subject)
  {
  }

  lemma OtherKeysPlain()
    ensures PlainKey(FirstQuestion) && PlainKey(LastQuestion) && PlainKey(SourcePath)
    ensures PlainKey(GeneratedAt) && PlainKey(Entities)
  {
  }

  /** The metadata step's attribution keys are the ones the converter reads. */
  lemma KeysAgree()
    ensures Sidecar.MetadataKeys == [University, Year, Subject]
    ensures FirstQuestion !in Sidecar.MetadataKeys && LastQuestion !in Sidecar.MetadataKeys
    ensures SourcePath !in Sidecar.MetadataKeys && GeneratedAt !in Sidecar.MetadataKeys
    ensures Entities !in Sidecar.MetadataKeys
  {
  }

  /** A string with a character that is not whitespace at `i` keeps it
      through `rstrip`. */
  lemma RStripKeeps(s: string, i: nat)
    requires i < |s| && !IsSpace(s[i])
    ensures |RStrip(s)| > i && RStrip(s)[i] == s[i]
  {
    RStripRemovesSpace(s);
    RStripIsPrefix(s);
  }

  /** Whitespace in front does not change `strip`. */
  lemma StripSpaceCons(v: string)
    ensures Strip(" " + v) == Strip(v)
  {
    assert (" " + v)[1..] == v;
  }

  /** `find` stops at the first occurrence. */
  lemma {:induction false} FindAt(s: string, c: char, i: nat)
    requires i < |s| && s[i] == c
    requires forall j | 0 <= j < i :: s[j] != c
    ensures Find(s, c) == Some(i)
    decreases i
  {
    if i > 0 {
      FindAt(s[1..], c, i - 1);
    }
  }

  /** In a `key:rest` line the first colon follows the key. */
  lemma KeyColon(k: string, rest: string)
    requires PlainKey(k)
    ensures Find(k + ":" + rest, ':') == Some(|k|)
  {
    var line := k + ":" + rest;
    assert forall j | 0 <= j < |k| :: line[j] == k[j];
    FindAt(line, ':', |k|);
  }

  /** A `key:rest` line is neither blank nor a comment. */
  lemma KeyLineNotComment(k: string, rest: string)
    requires PlainKey(k)
    ensures Strip(k + ":" + rest) != "" && !StartsWith(Strip(k + ":" + rest), "#")
  {
    var line := k + ":" + rest;
    assert line[0] == k[0];
    assert LStrip(line) == line;
    RStripKeeps(line, 0);
  }

  /** A `key:rest` line sets the key to the stripped rest when the key is
      read, and changes nothing otherwise. */
  lemma KeyLineRead(d: map<string, Value>, k: string, rest: string)
    requires PlainKey(k)
    ensures Sidecar.ReadLine(d, k + ":" + rest) ==
      if k in Sidecar.MetadataKeys then d[k := VStr(Strip(rest))] else d
  {
    var line := k + ":" + rest;
    KeyColon(k, rest);
    KeyLineNotComment(k, rest);
    assert line[..|k|] == k;
    StripUnpadded(k);
    assert line[|k| + 1..] == rest;
  }

  /** A field line reads as its stripped value. */
  lemma FieldLineRead(d: map<string, Value>, k: string, v: string)
    requires PlainKey(k)
    ensures Sidecar.ReadLine(d, k + ": " + v) ==
      if k in Sidecar.MetadataKeys then d[k := VStr(Strip(v))] else d
  {
    assert k + ": " + v == k + ":" + (" " + v);
    KeyLineRead(d, k, " " + v);
    StripSpaceCons(v);
  }

  /** `lstrip` of an indented item leaves the dash in front. */
  lemma ItemLStrip(x: string)
    ensures LStrip("  - " + x) == "- " + x
  {
    assert ("  - " + x)[1..] == " - " + x;
    assert LStrip("  - " + x) == LStrip(" - " + x);
    assert (" - " + x)[1..] == "- " + x;
    assert LStrip(" - " + x) == LStrip("- " + x);
    assert ("- " + x)[0] == '-';
  }

  /** An entity line is never read: its key, if any, starts with `-`. */
  lemma ItemLineRead(d: map<string, Value>, e: string)
    ensures Sidecar.ReadLine(d, "  - " + e) == d
  {
    var line := "  - " + e;
    match Find(line, ':')
    case None =>
    case Some(c) =>
      assert c >= 4 by {
        FindIsFirst(line, ':');
        assert line[0] != ':' && line[1] != ':' && line[2] != ':' && line[3] != ':';
      }
      var head := line[..c];
      assert head == "  - " + head[4..];
      ItemLStrip(head[4..]);
      RStripKeeps("- " + head[4..], 0);
      assert Strip(head)[0] == '-';
      assert Strip(head) !in Sidecar.MetadataKeys;
  }

  /** Lines each of which is never read leave the data as it is. */
  lemma {:induction false} ReadSkipped(d: map<string, Value>, lines: seq<string>)
    requires forall j, d': map<string, Value> | 0 <= j < |lines| :: Sidecar.ReadLine(d', lines[j]) == d'
    ensures Sidecar.ReadFrom(d, lines) == d
    decreases |lines|
  {
    if lines != [] {
      ReadSkipped(d, lines[..|lines| - 1]);
    }
  }

  /** The lines of the rendered block after the three attribution fields are
      never read. */
  lemma TailSkipped(data: map<string, Value>)
    ensures forall j, d': map<string, Value> | 0 <= j < |RenderLines(data)[4..]| ::
      Sidecar.ReadLine(d', RenderLines(data)[4..][j]) == d'
  {
    var lines := RenderLines(data);
    var ents := EntityValues(data);
    RenderLinesSpec(data);
    OtherKeysPlain();
    KeysAgree();
    forall j, d': map<string, Value> | 0 <= j < |lines[4..]|
      ensures Sidecar.ReadLine(d', lines[4..][j]) == d'
    {
      var i := 4 + j;
      assert lines[4..][j] == lines[i];
      if i < 8 {
        var k := RenderedKeys[i - 1];
        assert k in [FirstQuestion, LastQuestion, SourcePath, GeneratedAt];
        FieldLineRead(d', k, FieldText(data, k));
      } else if i == 8 {
        assert lines[i] == Entities + ":" + "";
        KeyLineRead(d', Entities, "");
      } else if i < 9 + |ents| {
        ItemLineRead(d', Str(ents[i - 9]));
      } else {
        assert lines[i] == "---";
        assert Find("---", ':').None?;
      }
    }
  }

  /** Four lines read one after the other. */
  lemma ReadFour(d: map<string, Value>, l0: string, l1: string, l2: string, l3: string)
    ensures Sidecar.ReadFrom(d, [l0, l1, l2, l3]) ==
      Sidecar.ReadLine(Sidecar.ReadLine(Sidecar.ReadLine(Sidecar.ReadLine(d, l0), l1), l2), l3)
  {
    ReadSnoc(d, [], l0);
    assert [] + [l0] == [l0];
    ReadSnoc(d, [l0], l1);
    assert [l0] + [l1] == [l0, l1];
    ReadSnoc(d, [l0, l1], l2);
    assert [l0, l1] + [l2] == [l0, l1, l2];
    ReadSnoc(d, [l0, l1, l2], l3);
    assert [l0, l1, l2] + [l3] == [l0, l1, l2, l3];
  }

  /** One more line is read on top of what came before. */
  lemma ReadSnoc(d: map<string, Value>, lines: seq<string>, l: string)
    ensures Sidecar.ReadFrom(d, lines + [l]) == Sidecar.ReadLine(Sidecar.ReadFrom(d, lines), l)
  {
    assert (lines + [l])[..|lines|] == lines;
  }

  /** The opening line and three field lines. */
  lemma ReadFieldHead(u: string, y: string, sub: string)
    ensures Sidecar.ReadFrom(map[], ["---", University + ": " + u, Year + ": " + y, Subject + ": " + sub]) ==
      map[University := VStr(Strip(u)), Year := VStr(Strip(y)), Subject := VStr(Strip(sub))]
  {
    AttributionKeysPlain();
    KeysAgree();
    ReadFour(map[], "---", University + ": " + u, Year + ": " + y, Subject + ": " + sub);
    assert Find("---", ':').None?;
    FieldLineRead(map[], University, u);
    var d1 := map[University := VStr(Strip(u))];
    FieldLineRead(d1, Year, y);
    var d2 := d1[Year := VStr(Strip(y))];
    FieldLineRead(d2, Subject, sub);
  }

  /** The opening line and the three attribution fields. */
  lemma HeadRead(data: map<string, Value>)
    ensures Sidecar.ReadFrom(map[], RenderLines(data)[..4]) ==
      map[University := VStr(Strip(FieldText(data, University))),
          Year := VStr(Strip(FieldText(data, Year))),
          Subject := VStr(Strip(FieldText(data, Subject)))]
  {
    var lines := RenderLines(data);
    RenderLinesSpec(data);
    assert lines[..4] == ["---", lines[1], lines[2], lines[3]];
    ReadFieldHead(FieldText(data, University), FieldText(data, Year), FieldText(data, Subject));
  }

  lemma FieldLineNoBreak(k: string, v: string)
    requires NoBreak(k) && NoBreak(v)
    ensures NoBreak(k + ": " + v)
  {
    NoBreakConcat(k, ": ");
    NoBreakConcat(k + ": ", v);
  }

  lemma ItemNoBreak(v: string)
    requires NoBreak(v)
    ensures NoBreak("  - " + v)
  {
    NoBreakConcat("  - ", v);
  }

  lemma FixedLinesNoBreak()
    ensures NoBreak("---") && NoBreak(Entities + ":")
  {
    OtherKeysPlain();
    NoBreakConcat(Entities, ":");
  }

  /** Every rendered line is free of line breaks when the values are. */
  lemma RenderedLinesNoBreak(data: map<string, Value>)
    requires forall i | 0 <= i < |RenderedKeys| :: NoBreak(FieldText(data, RenderedKeys[i]))
    requires forall e | e in EntityValues(data) :: NoBreak(Str(e))
    ensures forall i | 0 <= i < |RenderLines(data)| :: NoBreak(RenderLines(data)[i])
  {
    var lines := RenderLines(data);
    var ents := EntityValues(data);
    RenderLinesSpec(data);
    AttributionKeysPlain();
    OtherKeysPlain();
    FixedLinesNoBreak();
    assert forall i | 0 <= i < |RenderedKeys| :: PlainKey(RenderedKeys[i]);
    forall i | 0 <= i < |lines|
      ensures NoBreak(lines[i])
    {
      if 1 <= i < 8 {
        FieldLineNoBreak(RenderedKeys[i - 1], FieldText(data, RenderedKeys[i - 1]));
      } else if 9 <= i < 9 + |ents| {
        assert ents[i - 9] in ents;
        ItemNoBreak(Str(ents[i - 9]));
      }
    }
  }

  /** Reading back the sidecar written from `data` gives exactly the three
      attribution fields, each stripped, provided no value spans lines. */
  lemma SidecarRoundTrip(data: map<string, Value>)
    requires forall i | 0 <= i < |RenderedKeys| :: NoBreak(FieldText(data, RenderedKeys[i]))
    requires forall e | e in EntityValues(data) :: NoBreak(Str(e))
    ensures Sidecar.ReadFallback(RenderFrontMatter(data) + "\n") ==
      map[University := VStr(Strip(FieldText(data, University))),
          Year := VStr(Strip(FieldText(data, Year))),
          Subject := VStr(Strip(FieldText(data, Subject)))]
  {
    var lines := RenderLines(data);
    RenderLinesSpec(data);
    RenderedLinesNoBreak(data);
    assert forall l | l in lines :: NoBreak(l);
    SplitJoin(lines, true);
    assert JoinLines(lines, true) == RenderFrontMatter(data) + "\n";
    assert lines == lines[..4] + lines[4..];
    Sidecar.ReadFromAppend(map[], lines[..4], lines[4..]);
    HeadRead(data);
    TailSkipped(data);
    ReadSkipped(Sidecar.ReadFrom(map[], lines[..4]), lines[4..]);
  }
}
