/** The front matter that the metadata step renders, read back by the same
    step's fallback parser (`try_parse_yaml_block` without a YAML library).
    Every rendered field comes back as the value its stripped text parses
    to: a blank field becomes an empty list, `[a, b]` a list, anything else
    a string. The entity key comes back as the list of the non-blank
    entities, stripped. */
module Reparse {
  import opened PyStr
  import opened Values
  import opened MetadataFill
  import opened MetadataParser
  import RoundTrip

  /** The text each entity is written as. */
  function EntityTexts(ents: seq<Value>): (r: seq<string>)
    ensures |r| == |ents|
    ensures forall i | 0 <= i < |ents| :: r[i] == Str(ents[i])
  {
    seq(|ents|, i requires 0 <= i < |ents| => Str(ents[i]))
  }

  /** `d` after reading one `key: value` line per key, in order. */
  function FieldsRead(d: map<string, Value>, data: map<string, Value>, keys: seq<string>): map<string, Value>
    decreases |keys|
  {
    if keys == [] then d
    else
      var k := keys[|keys| - 1];
      FieldsRead(d, data, keys[..|keys| - 1])[k := FieldValue(Strip(FieldText(data, k)))]
  }

  /** After the field lines every key holds the value of its own text, and
      the other keys are those `d` held. */
  lemma {:induction false} FieldsReadSpec(d: map<string, Value>, data: map<string, Value>, keys: seq<string>)
    ensures forall k :: k in FieldsRead(d, data, keys) <==> k in d || k in keys
    ensures forall k | k in keys :: FieldsRead(d, data, keys)[k] == FieldValue(Strip(FieldText(data, k)))
    ensures forall k | k in d && k !in keys :: FieldsRead(d, data, keys)[k] == d[k]
    decreases |keys|
  {
    if keys != [] {
      var init, k0 := keys[..|keys| - 1], keys[|keys| - 1];
      FieldsReadSpec(d, data, init);
      var prev := FieldsRead(d, data, init);
      var r := FieldsRead(d, data, keys);
      assert r == prev[k0 := FieldValue(Strip(FieldText(data, k0)))];
      assert keys == init + [k0];
      forall k
        ensures k in r <==> k in d || k in keys
      {
        assert k in keys <==> k in init || k == k0;
      }
      forall k | k in keys
        ensures r[k] == FieldValue(Strip(FieldText(data, k)))
      {
        assert k in init || k == k0;
      }
      forall k | k in d && k !in keys
        ensures r[k] == d[k]
      {
        assert k !in init && k != k0;
      }
    }
  }

  // ---------------------------------------------------------------------------
  // One line at a time

  /** A `key:rest` line sets the key to the value of the stripped rest. */
  lemma KeyLineParse(st: ParseState, k: string, rest: string)
    requires ListKey(st) && RoundTrip.PlainKey(k)
    ensures ParseLine(st, k + ":" + rest) == KeyLine(st, k, Strip(rest))
  {
    var line := k + ":" + rest;
    assert line[0] == k[0];
    assert LStrip(line) == line;
    assert !IsItem(line);
    RoundTrip.KeyColon(k, rest);
    assert KeyColon(line) == Some(|k|);
    assert line[..|k|] == k;
    StripUnpadded(k);
    assert line[|k| + 1..] == rest;
  }

  /** A rendered field line sets its key to the value of its stripped text. */
  lemma FieldLineParse(st: ParseState, k: string, v: string)
    requires ListKey(st) && RoundTrip.PlainKey(k)
    ensures ParseLine(st, k + ": " + v) == KeyLine(st, k, Strip(v))
  {
    assert k + ": " + v == k + ":" + (" " + v);
    KeyLineParse(st, k, " " + v);
    RoundTrip.StripSpaceCons(v);
  }

  /** A rendered entity line is an item whose text is the stripped entity. */
  lemma ItemLineParse(st: ParseState, e: string)
    requires ListKey(st)
    ensures IsItem("  - " + e)
    ensures ParseLine(st, "  - " + e) == ItemLine(st, "  - " + e)
    ensures ItemText("  - " + e) == Strip(e)
  {
    RoundTrip.ItemLStrip(e);
    assert ("- " + e)[1..] == " " + e;
    RoundTrip.StripSpaceCons(e);
  }

  /** The block's last line loses its trailing whitespace; an entity line
      reads the same without it. */
  lemma ItemLineRStrip(st: ParseState, e: string)
    requires ListKey(st)
    ensures ParseLine(st, RStrip("  - " + e)) == ParseLine(st, "  - " + e)
  {
    var line := "  - " + e;
    ItemLineParse(st, e);
    RStripAppend("  - ", e);
    RStripAppend(" ", e);
    StripOfRStrip(" " + e);
    RoundTrip.StripSpaceCons(e);
    if RStrip(e) == "" {
      assert RStrip(" ") == "";
      assert Strip(e) == "";
      assert RStrip("  - ") == "  -";
      assert LStrip("  -") == "-";
      assert Find("  -", ':') == None;
    } else {
      var cut := RStrip(e);
      ItemLineParse(st, cut);
      RoundTrip.StripSpaceCons(cut);
      assert ItemText("  - " + cut) == Strip(e);
    }
  }

  // ---------------------------------------------------------------------------
  // The lines of the block

  /** The field lines, read in order. */
  lemma {:induction false} FieldLinesParse(st: ParseState, data: map<string, Value>, keys: seq<string>)
    requires ListKey(st)
    requires forall i | 0 <= i < |keys| :: RoundTrip.PlainKey(keys[i])
    ensures ParseLines(st, FieldLines(data, keys)).data == FieldsRead(st.data, data, keys)
    decreases |keys|
  {
    if keys != [] {
      var n := |keys|;
      var lines := FieldLines(data, keys);
      assert lines[..n - 1] == FieldLines(data, keys[..n - 1]);
      FieldLinesParse(st, data, keys[..n - 1]);
      FieldLineParse(ParseLines(st, lines[..n - 1]), keys[n - 1], FieldText(data, keys[n - 1]));
    }
  }

  /** The entity lines, read in order under the list key `ekey`: the
      non-blank entities are appended, stripped. */
  lemma {:induction false} EntityLinesParse(st: ParseState, ekey: string, ents: seq<Value>)
    requires st.current == Some(ekey) && ekey in st.data && st.data[ekey].VList?
    ensures ParseLines(st, EntityLines(ents)) ==
      ParseState(st.data[ekey := VList(st.data[ekey].items + Scalars(KeepStripped(EntityTexts(ents))))], Some(ekey))
    decreases |ents|
  {
    var acc := st.data[ekey].items;
    if ents == [] {
      assert acc + Scalars(KeepStripped(EntityTexts(ents))) == acc;
    } else {
      var n := |ents|;
      var lines := EntityLines(ents);
      var e := Str(ents[n - 1]);
      assert lines[..n - 1] == EntityLines(ents[..n - 1]);
      assert lines[n - 1] == "  - " + e;
      EntityLinesParse(st, ekey, ents[..n - 1]);
      var before := KeepStripped(EntityTexts(ents[..n - 1]));
      var s := ParseLines(st, lines[..n - 1]);
      assert s.data[ekey].items == acc + Scalars(before);
      ItemLineParse(s, e);
      EntityTextsSnoc(ents);
      KeepStrippedSnoc(EntityTexts(ents[..n - 1]), e);
      var last := if Strip(e) == "" then [] else [Strip(e)];
      ScalarsAppend(before, last);
      AppendAssoc(acc, Scalars(before), Scalars(last));
      var items := acc + Scalars(before) + Scalars(last);
      assert items == acc + Scalars(KeepStripped(EntityTexts(ents)));
      assert ParseLines(st, lines) == ParseLine(s, "  - " + e);
      assert s == ParseState(st.data[ekey := VList(acc + Scalars(before))], Some(ekey));
      if Strip(e) != "" {
        assert Scalars(last) == [VStr(Strip(e))];
        assert ItemLine(s, "  - " + e) == ParseState(s.data[ekey := VList(items)], Some(ekey));
      } else {
        assert Scalars(last) == [];
        assert items == acc + Scalars(before);
        assert ItemLine(s, "  - " + e) == s;
      }
      UpdateTwice(st.data, ekey, VList(acc + Scalars(before)), VList(items));
    }
  }

  lemma UpdateTwice<K, V>(m: map<K, V>, k: K, a: V, b: V)
    ensures m[k := a][k := b] == m[k := b]
  {
  }

  lemma EntityTextsSnoc(ents: seq<Value>)
    requires ents != []
    ensures EntityTexts(ents) == EntityTexts(ents[..|ents| - 1]) + [Str(ents[|ents| - 1])]
  {
    var n := |ents|;
    assert forall i | 0 <= i < n - 1 :: EntityTexts(ents)[i] == EntityTexts(ents[..n - 1])[i];
  }

  /** Keys as rendered, one line each. */
  predicate KeysPlain(keys: seq<string>)
  {
    forall i | 0 <= i < |keys| :: RoundTrip.PlainKey(keys[i])
  }

  /** The lines between the `---` markers: a line per field, the list key,
      then a line per entity. */
  function Middle(data: map<string, Value>, keys: seq<string>, ekey: string, ents: seq<Value>): (r: seq<string>)
    ensures |r| == |keys| + 1 + |ents|
  {
    FieldLines(data, keys) + [ekey + ":"] + EntityLines(ents)
  }

  /** The lines between the markers, read from the start. */
  lemma MiddleParse(data: map<string, Value>, keys: seq<string>, ekey: string, ents: seq<Value>)
    requires KeysPlain(keys) && RoundTrip.PlainKey(ekey)
    ensures ParseLines(Start, Middle(data, keys, ekey, ents)).data ==
      FieldsRead(map[], data, keys)[ekey := VList(Scalars(KeepStripped(EntityTexts(ents))))]
  {
    var fields := FieldLines(data, keys);
    FieldLinesParse(Start, data, keys);
    ParseLinesAppend(Start, fields, [ekey + ":"]);
    var s1 := ParseLines(Start, fields);
    assert ParseLines(s1, [ekey + ":"]) == ParseLine(s1, ekey + ":") by {
      assert [ekey + ":"][..0] == [];
    }
    assert ekey + ":" == ekey + ":" + "";
    KeyLineParse(s1, ekey, "");
    var s2 := ParseLines(Start, fields + [ekey + ":"]);
    assert s2 == ParseState(s1.data[ekey := VList([])], Some(ekey));
    assert Middle(data, keys, ekey, ents) == (fields + [ekey + ":"]) + EntityLines(ents);
    ParseLinesAppend(Start, fields + [ekey + ":"], EntityLines(ents));
    EntityLinesParse(s2, ekey, ents);
    var items := Scalars(KeepStripped(EntityTexts(ents)));
    assert [] + items == items;
    UpdateTwice(s1.data, ekey, VList([]), VList(items));
  }

  /** The first middle line starts with a key. */
  lemma MiddleFirst(data: map<string, Value>, keys: seq<string>, ekey: string, ents: seq<Value>)
    requires KeysPlain(keys) && RoundTrip.PlainKey(ekey)
    ensures var mid := Middle(data, keys, ekey, ents);
      mid[0] != "" && !IsSpace(mid[0][0])
  {
    var mid := Middle(data, keys, ekey, ents);
    if keys == [] {
      assert mid[0] == ekey + ":";
      assert mid[0][0] == ekey[0];
    } else {
      assert RoundTrip.PlainKey(keys[0]);
      assert mid[0] == keys[0] + ": " + FieldText(data, keys[0]);
      assert mid[0][0] == keys[0][0];
    }
  }

  /** The last middle line is the list key when there is no entity and the
      last entity's line otherwise. */
  lemma MiddleLast(data: map<string, Value>, keys: seq<string>, ekey: string, ents: seq<Value>)
    ensures var mid := Middle(data, keys, ekey, ents);
      mid[|mid| - 1] == if ents == [] then ekey + ":" else "  - " + Str(ents[|ents| - 1])
  {
    var mid := Middle(data, keys, ekey, ents);
    if ents == [] {
      assert EntityLines(ents) == [];
      assert mid == FieldLines(data, keys) + [ekey + ":"];
    } else {
      assert mid[|mid| - 1] == EntityLines(ents)[|ents| - 1];
    }
  }

  /** The last middle line is not blank. */
  lemma MiddleLastNotBlank(data: map<string, Value>, keys: seq<string>, ekey: string, ents: seq<Value>)
    requires RoundTrip.PlainKey(ekey)
    ensures var mid := Middle(data, keys, ekey, ents);
      RStrip(mid[|mid| - 1]) != ""
  {
    var mid := Middle(data, keys, ekey, ents);
    var last := mid[|mid| - 1];
    MiddleLast(data, keys, ekey, ents);
    if ents == [] {
      assert last[|last| - 1] == ':';
      RoundTrip.RStripKeeps(last, |last| - 1);
    } else {
      assert last[2] == '-';
      RoundTrip.RStripKeeps(last, 2);
    }
  }

  /** Every middle line is free of line breaks when the values are. */
  lemma MiddleNoBreak(data: map<string, Value>, keys: seq<string>, ekey: string, ents: seq<Value>)
    requires KeysPlain(keys) && RoundTrip.PlainKey(ekey)
    requires forall i | 0 <= i < |keys| :: NoBreak(FieldText(data, keys[i]))
    requires forall e | e in ents :: NoBreak(Str(e))
    ensures forall l | l in Middle(data, keys, ekey, ents) :: NoBreak(l)
  {
    var mid := Middle(data, keys, ekey, ents);
    NoBreakConcat(ekey, ":");
    forall i | 0 <= i < |mid|
      ensures NoBreak(mid[i])
    {
      if i < |keys| {
        RoundTrip.FieldLineNoBreak(keys[i], FieldText(data, keys[i]));
      } else if i > |keys| {
        assert ents[i - |keys| - 1] in ents;
        RoundTrip.ItemNoBreak(Str(ents[i - |keys| - 1]));
      }
    }
  }

  // ---------------------------------------------------------------------------
  // The text

  /** The middle lines, the last one without its trailing whitespace. */
  function BlockLines(mid: seq<string>): seq<string>
    requires mid != []
  {
    mid[..|mid| - 1] + [RStrip(mid[|mid| - 1])]
  }

  /** Lines between two `---` lines, joined, are the joined lines between
      two newlines, between the markers. */
  lemma MarkedText(mid: seq<string>)
    requires mid != []
    ensures Join(["---"] + mid + ["---"], "\n") == "---" + ("\n" + Join(mid, "\n") + "\n") + "---"
  {
    assert ["---"] + mid + ["---"] == ["---"] + (mid + ["---"]);
    JoinCons("---", mid + ["---"], "\n");
    JoinAppend(mid, "---", "\n");
  }

  /** `x` between two markers is a block whose group is `x` stripped. */
  lemma YamlBlockMarked(x: string)
    ensures YamlBlock("---" + x + "---") == Some(Strip(x))
  {
    var t := "---" + x + "---";
    assert t[0] == '-' && t[|t| - 1] == '-';
    StripUnpadded(t);
    assert t[..3] == "---" && t[|t| - 3..] == "---";
    assert t[3..|t| - 3] == x;
  }

  /** Stripping the newlines around text that starts with a character other
      than whitespace strips its right end only. */
  lemma StripNewlines(m: string)
    requires m != [] && !IsSpace(m[0])
    ensures Strip("\n" + m + "\n") == RStrip(m)
  {
    var x := "\n" + m + "\n";
    var y := m + "\n";
    assert x[0] == '\n' && IsSpace('\n');
    assert x[1..] == y;
    assert LStrip(x) == LStrip(y);
    assert y[0] == m[0];
    assert LStrip(y) == y;
    assert y[|y| - 1] == '\n';
    assert y[..|y| - 1] == m;
    assert RStrip(y) == RStrip(m);
  }

  /** The first character of joined lines is that of the first line. */
  lemma JoinFirst(mid: seq<string>)
    requires mid != [] && mid[0] != ""
    ensures Join(mid, "\n") != [] && Join(mid, "\n")[0] == mid[0][0]
  {
    if |mid| > 1 {
      JoinCons(mid[0], mid[1..], "\n");
      assert mid == [mid[0]] + mid[1..];
    }
  }

  /** `rstrip` of joined lines reaches into the last line only, when that
      line is not blank. */
  lemma RStripJoin(init: seq<string>, last: string)
    requires RStrip(last) != ""
    ensures RStrip(Join(init + [last], "\n")) == Join(init + [RStrip(last)], "\n")
  {
    JoinAppend(init, last, "\n");
    JoinAppend(init, RStrip(last), "\n");
    if init != [] {
      RStripAppend(Join(init, "\n") + "\n", last);
    }
  }

  /** The `---` block of lines between two `---` lines is those lines joined
      back, the last one without its trailing whitespace. */
  lemma BlockOf(init: seq<string>, last: string)
    requires (init + [last])[0] != "" && !IsSpace((init + [last])[0][0])
    requires RStrip(last) != ""
    ensures YamlBlock(Join(["---"] + (init + [last]) + ["---"], "\n")) == Some(Join(init + [RStrip(last)], "\n"))
  {
    var mid := init + [last];
    var m := Join(mid, "\n");
    MarkedText(mid);
    YamlBlockMarked("\n" + m + "\n");
    JoinFirst(mid);
    StripNewlines(m);
    RStripJoin(init, last);
  }

  /** The same, for the lines as one sequence. */
  lemma BlockOfLines(mid: seq<string>)
    requires mid != [] && mid[0] != "" && !IsSpace(mid[0][0])
    requires RStrip(mid[|mid| - 1]) != ""
    ensures YamlBlock(Join(["---"] + mid + ["---"], "\n")) == Some(Join(BlockLines(mid), "\n"))
  {
    var init, last := mid[..|mid| - 1], mid[|mid| - 1];
    SnocSplit(mid);
    BlockOf(init, last);
  }

  lemma SnocSplit<T>(s: seq<T>)
    requires s != []
    ensures s == s[..|s| - 1] + [s[|s| - 1]]
  {
  }

  /** The block splits back into its lines. */
  lemma BlockSplit(mid: seq<string>)
    requires mid != [] && forall l | l in mid :: NoBreak(l)
    requires RStrip(mid[|mid| - 1]) != ""
    ensures SplitLines(Join(BlockLines(mid), "\n")) == BlockLines(mid)
  {
    var block := BlockLines(mid);
    var last := mid[|mid| - 1];
    assert last in mid;
    RStripIsPrefix(last);
    assert NoBreak(RStrip(last));
    assert forall i | 0 <= i < |block| - 1 :: block[i] == mid[i];
    assert forall l | l in block :: NoBreak(l);
    SplitJoin(block, false);
    assert JoinLines(block, false) == Join(block, "\n");
    assert block[|block| - 1] == RStrip(last) != "";
    assert Resplit(block, false) == block;
  }

  /** Reading the block's lines is reading the middle lines. */
  lemma BlockParse(data: map<string, Value>, keys: seq<string>, ekey: string, ents: seq<Value>)
    requires KeysPlain(keys) && RoundTrip.PlainKey(ekey)
    ensures ParseLines(Start, BlockLines(Middle(data, keys, ekey, ents))) == ParseLines(Start, Middle(data, keys, ekey, ents))
  {
    var mid := Middle(data, keys, ekey, ents);
    var block := BlockLines(mid);
    var init, last := mid[..|mid| - 1], mid[|mid| - 1];
    assert block[..|block| - 1] == init;
    assert mid[..|mid| - 1] == init;
    var s := ParseLines(Start, init);
    assert ParseLines(Start, block) == ParseLine(s, RStrip(last));
    assert ParseLines(Start, mid) == ParseLine(s, last);
    MiddleLast(data, keys, ekey, ents);
    if ents == [] {
      assert last[|last| - 1] == ':';
      assert RStrip(last) == last;
    } else {
      ItemLineRStrip(s, Str(ents[|ents| - 1]));
    }
  }

  /** Lines rendered from any plain keys, a list key not among them and any
      entities, between `---` lines, parse back to the fields read in order
      and the non-blank entities under the list key. */
  lemma {:induction false} ReadBack(data: map<string, Value>, keys: seq<string>, ekey: string, ents: seq<Value>)
    requires KeysPlain(keys) && RoundTrip.PlainKey(ekey)
    requires forall i | 0 <= i < |keys| :: NoBreak(FieldText(data, keys[i]))
    requires forall e | e in ents :: NoBreak(Str(e))
    ensures TryParseYamlBlock(Join(["---"] + Middle(data, keys, ekey, ents) + ["---"], "\n")) ==
      Some(FieldsRead(map[], data, keys)[ekey := VList(Scalars(KeepStripped(EntityTexts(ents))))])
  {
    var mid := Middle(data, keys, ekey, ents);
    var block := Join(BlockLines(mid), "\n");
    MiddleFirst(data, keys, ekey, ents);
    MiddleLastNotBlank(data, keys, ekey, ents);
    MiddleNoBreak(data, keys, ekey, ents);
    BlockOfLines(mid);
    BlockSplit(mid);
    BlockParse(data, keys, ekey, ents);
    MiddleParse(data, keys, ekey, ents);
    var d := FieldsRead(map[], data, keys)[ekey := VList(Scalars(KeepStripped(EntityTexts(ents))))];
    assert ParseLines(Start, SplitLines(block)).data == d;
    assert ekey in d;
  }

  /** The rendered keys and the entity key are plain, and the entity key is
      written after the fields, not among them. */
  lemma RenderedKeysPlain()
    ensures KeysPlain(RenderedKeys) && RoundTrip.PlainKey(Entities)
    ensures Entities !in RenderedKeys
  {
    RoundTrip.AttributionKeysPlain();
    RoundTrip.OtherKeysPlain();
    KeysDistinct();
  }

  /** The rendered front matter is the middle lines between `---` lines. */
  lemma RenderedMiddle(data: map<string, Value>)
    ensures RenderFrontMatter(data) ==
      Join(["---"] + Middle(data, RenderedKeys, Entities, EntityValues(data)) + ["---"], "\n")
  {
    assert RenderLines(data) == ["---"] + Middle(data, RenderedKeys, Entities, EntityValues(data)) + ["---"];
  }

  /** Rendering the record and parsing the rendered text back gives each
      rendered field the value of its stripped text (a blank field comes back
      as an empty list), gives the entity key the non-blank entities, stripped
      and in order, and holds no other key. This holds when no value or
      entity spans lines. */
  lemma RenderParseRoundTrip(data: map<string, Value>)
    requires forall i | 0 <= i < |RenderedKeys| :: NoBreak(FieldText(data, RenderedKeys[i]))
    requires forall e | e in EntityValues(data) :: NoBreak(Str(e))
    ensures TryParseYamlBlock(RenderFrontMatter(data)).Some?
    ensures forall k :: k in TryParseYamlBlock(RenderFrontMatter(data)).value <==> k in RenderedKeys || k == Entities
    ensures forall i | 0 <= i < |RenderedKeys| ::
      && RenderedKeys[i] in TryParseYamlBlock(RenderFrontMatter(data)).value
      && TryParseYamlBlock(RenderFrontMatter(data)).value[RenderedKeys[i]] == FieldValue(Strip(FieldText(data, RenderedKeys[i])))
    ensures forall i | 0 <= i < |RenderedKeys| && Strip(FieldText(data, RenderedKeys[i])) == "" ::
      && RenderedKeys[i] in TryParseYamlBlock(RenderFrontMatter(data)).value
      && TryParseYamlBlock(RenderFrontMatter(data)).value[RenderedKeys[i]] == VList([])
    ensures && Entities in TryParseYamlBlock(RenderFrontMatter(data)).value
            && TryParseYamlBlock(RenderFrontMatter(data)).value[Entities] ==
               VList(Scalars(KeepStripped(EntityTexts(EntityValues(data)))))
  {
    var ents := EntityValues(data);
    RenderedKeysPlain();
    RenderedMiddle(data);
    ReadBack(data, RenderedKeys, Entities, ents);
    FieldsReadSpec(map[], data, RenderedKeys);
    var fields := FieldsRead(map[], data, RenderedKeys);
    var d := fields[Entities := VList(Scalars(KeepStripped(EntityTexts(ents))))];
    assert TryParseYamlBlock(RenderFrontMatter(data)) == Some(d);
    forall i | 0 <= i < |RenderedKeys|
      ensures RenderedKeys[i] in d && d[RenderedKeys[i]] == FieldValue(Strip(FieldText(data, RenderedKeys[i])))
    {
      var k := RenderedKeys[i];
      assert k in RenderedKeys;
      assert k != Entities;
      assert d[k] == fields[k];
    }
  }
}
