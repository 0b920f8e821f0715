/** `try_parse_yaml_block` of the metadata generator without a YAML library:
    the model's reply must be a block between `---` lines, and the block is
    read line by line as `key: value` pairs, bracketed `[a, b]` lists and
    `- item` continuation lines. */
module MetadataParser {
  import opened PyStr
  import opened Values

  // ---------------------------------------------------------------------------
  // Splitting and keeping the non-blank parts

  /** `re.split` on any of the characters in `seps` (`str.split(c)` when
      `seps == {c}`): at least one part, possibly empty ones. */
  function SplitOn(s: string, seps: set<char>): (r: seq<string>)
    ensures |r| >= 1
    decreases |s|
  {
    if s == [] then [""]
    else
      var rest := SplitOn(s[1..], seps);
      if s[0] in seps then [""] + rest else [[s[0]] + rest[0]] + rest[1..]
  }

  /** No part holds a separator. */
  lemma {:induction false} SplitOnParts(s: string, seps: set<char>)
    ensures forall p, j | p in SplitOn(s, seps) && 0 <= j < |p| :: p[j] !in seps
    decreases |s|
  {
    if s != [] {
      SplitOnParts(s[1..], seps);
      var rest := SplitOn(s[1..], seps);
      if s[0] !in seps {
        var h := [s[0]] + rest[0];
        assert rest[0] in rest;
        assert forall j | 1 <= j < |h| :: h[j] == rest[0][j - 1];
        assert forall p | p in SplitOn(s, seps) :: p == h || p in rest;
      }
    }
  }

  /** Joining the parts with the one separator gives the text back. */
  lemma {:induction false} SplitOnJoin(s: string, c: char)
    ensures Join(SplitOn(s, {c}), [c]) == s
    decreases |s|
  {
    if s != [] {
      var rest := SplitOn(s[1..], {c});
      SplitOnJoin(s[1..], c);
      if s[0] == c {
        assert SplitOn(s, {c}) == [""] + rest;
        JoinCons("", rest, [c]);
      } else {
        assert SplitOn(s, {c}) == [[s[0]] + rest[0]] + rest[1..];
        JoinHeadExtend(s[0], rest, [c]);
      }
      assert s == [s[0]] + s[1..];
    }
  }

  /** The separators of `s`, in order. */
  function SepsIn(s: string, seps: set<char>): string
    decreases |s|
  {
    if s == [] then []
    else if s[0] in seps then [s[0]] + SepsIn(s[1..], seps)
    else SepsIn(s[1..], seps)
  }

  /** Only separators are collected. */
  lemma {:induction false} SepsInSpec(s: string, seps: set<char>)
    ensures forall j | 0 <= j < |SepsIn(s, seps)| :: SepsIn(s, seps)[j] in seps
    decreases |s|
  {
    if s != [] {
      SepsInSpec(s[1..], seps);
    }
  }

  /** The parts with the separators put back between them. */
  function Interleave(parts: seq<string>, between: string): string
    requires |parts| == |between| + 1
    decreases |between|
  {
    if between == [] then parts[0]
    else parts[0] + [between[0]] + Interleave(parts[1..], between[1..])
  }

  /** There is one more part than separators, and putting each separator
      back between its two parts gives the text back. */
  lemma {:induction false} SplitOnInterleave(s: string, seps: set<char>)
    ensures |SplitOn(s, seps)| == |SepsIn(s, seps)| + 1
    ensures Interleave(SplitOn(s, seps), SepsIn(s, seps)) == s
    decreases |s|
  {
    if s != [] {
      var rest := SplitOn(s[1..], seps);
      var cs := SepsIn(s[1..], seps);
      SplitOnInterleave(s[1..], seps);
      if s[0] in seps {
        var parts := [""] + rest;
        assert SplitOn(s, seps) == parts;
        assert SepsIn(s, seps) == [s[0]] + cs;
        assert parts[1..] == rest && ([s[0]] + cs)[1..] == cs;
        assert Interleave(parts, [s[0]] + cs) == "" + [s[0]] + Interleave(rest, cs);
      } else {
        assert SplitOn(s, seps) == [[s[0]] + rest[0]] + rest[1..];
        InterleaveHeadExtend(s[0], rest, cs);
      }
      assert s == [s[0]] + s[1..];
    }
  }

  /** The characters of `s` that are not separators, in order. */
  function WithoutSeps(s: string, seps: set<char>): string
    decreases |s|
  {
    if s == [] then []
    else if s[0] in seps then WithoutSeps(s[1..], seps)
    else [s[0]] + WithoutSeps(s[1..], seps)
  }

  /** The parts, concatenated. */
  function Concat(parts: seq<string>): string
    decreases |parts|
  {
    if parts == [] then [] else parts[0] + Concat(parts[1..])
  }

  /** The parts concatenated are the text with its separators removed. */
  lemma {:induction false} SplitOnConcat(s: string, seps: set<char>)
    ensures Concat(SplitOn(s, seps)) == WithoutSeps(s, seps)
    decreases |s|
  {
    if s != [] {
      var rest := SplitOn(s[1..], seps);
      SplitOnConcat(s[1..], seps);
      if s[0] in seps {
        var parts := [""] + rest;
        assert SplitOn(s, seps) == parts;
        assert parts[1..] == rest;
        assert Concat(parts) == "" + Concat(rest);
      } else {
        var parts := [[s[0]] + rest[0]] + rest[1..];
        assert SplitOn(s, seps) == parts;
        assert parts[1..] == rest[1..];
        assert Concat(rest) == rest[0] + Concat(rest[1..]);
        AppendAssoc([s[0]], rest[0], Concat(rest[1..]));
      }
    }
  }

  /** A character put in front of the first part ends up in front of the
      interleaved text. */
  lemma InterleaveHeadExtend(x: char, rest: seq<string>, between: string)
    requires |rest| == |between| + 1
    ensures Interleave([[x] + rest[0]] + rest[1..], between) == [x] + Interleave(rest, between)
  {
    var parts := [[x] + rest[0]] + rest[1..];
    assert parts[0] == [x] + rest[0] && parts[1..] == rest[1..];
    if between != [] {
      var tail := [between[0]] + Interleave(rest[1..], between[1..]);
      AppendAssoc([x], rest[0], tail);
      AppendAssoc(parts[0], [between[0]], Interleave(rest[1..], between[1..]));
      AppendAssoc(rest[0], [between[0]], Interleave(rest[1..], between[1..]));
    }
  }

  lemma JoinCons(h: string, rest: seq<string>, sep: string)
    requires rest != []
    ensures Join([h] + rest, sep) == h + sep + Join(rest, sep)
  {
    assert ([h] + rest)[1..] == rest;
  }

  /** A character put in front of the first part ends up in front of the
      joined text. */
  lemma JoinHeadExtend(x: char, rest: seq<string>, sep: string)
    requires rest != []
    ensures Join([[x] + rest[0]] + rest[1..], sep) == [x] + Join(rest, sep)
  {
    if |rest| > 1 {
      JoinCons([x] + rest[0], rest[1..], sep);
      AppendAssoc([x], rest[0], sep);
      AppendAssoc([x], rest[0] + sep, Join(rest[1..], sep));
    }
  }

  /** `[p.strip() for p in parts if p.strip()]` */
  function KeepStripped(parts: seq<string>): (r: seq<string>)
    ensures |r| <= |parts|
  {
    if parts == [] then []
    else
      var t := Strip(parts[0]);
      (if t == "" then [] else [t]) + KeepStripped(parts[1..])
  }

  /** One more part is kept, stripped, after the others exactly when it is
      not blank. */
  lemma {:induction false} KeepStrippedSnoc(parts: seq<string>, x: string)
    ensures KeepStripped(parts + [x]) ==
      KeepStripped(parts) + (if Strip(x) == "" then [] else [Strip(x)])
    decreases |parts|
  {
    if parts == [] {
      assert parts + [x] == [x];
    } else {
      assert (parts + [x])[1..] == parts[1..] + [x];
      KeepStrippedSnoc(parts[1..], x);
    }
  }

  /** Text that is non-empty and has no surrounding whitespace. */
  predicate Clean(s: string)
  {
    s != "" && !IsSpace(s[0]) && !IsSpace(s[|s| - 1])
  }

  /** A non-empty stripped text is clean and strips to itself. */
  lemma StripClean(s: string)
    requires Strip(s) != ""
    ensures Clean(Strip(s)) && Strip(Strip(s)) == Strip(s)
  {
    StripEnds(s);
    StripUnpadded(Strip(s));
  }

  /** Exactly the non-blank parts survive, stripped and in order. */
  lemma {:induction false} KeepStrippedSpec(parts: seq<string>)
    ensures forall x | x in KeepStripped(parts) :: Clean(x)
    ensures forall p | p in parts && Strip(p) != "" :: Strip(p) in KeepStripped(parts)
    ensures forall x | x in KeepStripped(parts) :: exists p | p in parts :: x == Strip(p)
    decreases |parts|
  {
    if parts != [] {
      KeepStrippedSpec(parts[1..]);
      var t := Strip(parts[0]);
      if t != "" {
        StripClean(parts[0]);
      }
      assert parts[0] in parts;
      assert forall p | p in parts[1..] :: p in parts;
      assert forall p | p in parts :: p == parts[0] || p in parts[1..];
    }
  }

  // ---------------------------------------------------------------------------
  // The `---` block

  /** `re.match(r"^---\s*(.*?)\s*---\s*$", text.strip(), re.S)`: the stripped
      reply must begin and end with `---` (six characters at least, since the
      two markers cannot overlap), and the group is the stripped middle. */
  function YamlBlock(text: string): Option<string>
  {
    var t := Strip(text);
    if |t| >= 6 && StartsWith(t, "---") && EndsWith(t, "---") then Some(Strip(t[3..|t| - 3]))
    else None
  }

  // ---------------------------------------------------------------------------
  // The line parser

  /** What has been read so far and the key that `- item` lines extend. */
  datatype ParseState = ParseState(data: map<string, Value>, current: Option<string>)

  /** The list key, when there is one, holds a list: the source appends to it. */
  predicate ListKey(st: ParseState)
  {
    st.current.Some? ==> st.current.value in st.data && st.data[st.current.value].VList?
  }

  /** The values of `[a, b]`: the inside, stripped, split at `,`, with the
      blank parts dropped. (A value shorter than two characters is never
      bracketed; it is given no items.) */
  function BracketItems(val: string): seq<Value>
  {
    var inner := if |val| >= 2 then Strip(val[1..|val| - 1]) else "";
    Scalars(KeepStripped(SplitOn(inner, {','})))
  }

  /** Each string as a scalar value, in order. */
  function Scalars(items: seq<string>): (r: seq<Value>)
    ensures |r| == |items|
  {
    if items == [] then [] else [VStr(items[0])] + Scalars(items[1..])
  }

  lemma {:induction false} ScalarsAppend(a: seq<string>, b: seq<string>)
    ensures Scalars(a + b) == Scalars(a) + Scalars(b)
    decreases |a|
  {
    if a == [] {
      assert a + b == b;
    } else {
      assert (a + b)[1..] == a[1..] + b;
      ScalarsAppend(a[1..], b);
    }
  }

  /** The value of `key: val` once `val` is stripped. */
  function FieldValue(val: string): Value
  {
    if StartsWith(val, "[") && EndsWith(val, "]") then VList(BracketItems(val))
    else if val == "" then VList([])
    else VStr(val)
  }

  /** `^\s*-\s+(.*)$`: a dash after the indentation, then whitespace. */
  predicate IsItem(line: string)
  {
    var l := LStrip(line);
    |l| >= 2 && l[0] == '-' && IsSpace(l[1])
  }

  /** The item text of an item line, stripped. */
  function ItemText(line: string): string
    requires IsItem(line)
  {
    Strip(LStrip(line)[1..])
  }

  /** `^\s*([^:\n]+?)\s*:\s*(.*)$` matches exactly when something precedes
      the first `:`; the result is the colon's index. */
  function KeyColon(line: string): Option<nat>
  {
    match Find(line, ':')
    case Some(c) => if c >= 1 then Some(c) else None
    case None => None
  }

  /** One line of the block. */
  function ParseLine(st: ParseState, line: string): (r: ParseState)
    requires ListKey(st)
    ensures ListKey(r)
  {
    var l := LStrip(line);
    if StartsWith(l, "#") || l == "" then st
    else if IsItem(line) then ItemLine(st, line)
    else FieldLine(st, line)
  }

  /** `- item` read: a non-empty item extends the current list, if any. */
  function ItemLine(st: ParseState, line: string): (r: ParseState)
    requires ListKey(st) && IsItem(line)
    ensures ListKey(r)
  {
    match st.current
    case None => st
    case Some(k) =>
      var item := ItemText(line);
      if item == "" then st
      else st.(data := st.data[k := VList(st.data[k].items + [VStr(item)])])
  }

  /** A line that is not an item: `key: val` when a key precedes the first
      colon, ignored otherwise. */
  function FieldLine(st: ParseState, line: string): (r: ParseState)
    requires ListKey(st)
    ensures ListKey(r)
  {
    match KeyColon(line)
    case None => st
    case Some(c) => KeyLine(st, Strip(line[..c]), Strip(line[c + 1..]))
  }

  /** `key: val` read: the key gets the value and becomes current exactly
      when the value is a list. */
  function KeyLine(st: ParseState, key: string, val: string): ParseState
  {
    var v := FieldValue(val);
    ParseState(st.data[key := v], if v.VList? then Some(key) else None)
  }

  /** The lines read in order from `st`. */
  function ParseLines(st: ParseState, lines: seq<string>): (r: ParseState)
    requires ListKey(st)
    ensures ListKey(r)
    decreases |lines|
  {
    if lines == [] then st else ParseLine(ParseLines(st, lines[..|lines| - 1]), lines[|lines| - 1])
  }

  const Start: ParseState := ParseState(map[], None)

  /** The parse: `None` when there is no `---` block or when no key was read. */
  function TryParseYamlBlock(text: string): Option<map<string, Value>>
  {
    match YamlBlock(text)
    case None => None
    case Some(block) =>
      var d := ParseLines(Start, SplitLines(block)).data;
      if d == map[] then None else Some(d)
  }

  /** The source's function: the block, then its loop over the lines. */
  method ParseYamlFallback(text: string) returns (r: Option<map<string, Value>>)
    ensures r == TryParseYamlBlock(text)
  {
    var t := Strip(text);
    if !(|t| >= 6 && StartsWith(t, "---") && EndsWith(t, "---")) {
      assert YamlBlock(text) == None;
      return None;
    }
    var block := Strip(t[3..|t| - 3]);
    assert YamlBlock(text) == Some(block);
    var data := ParseBlockLines(SplitLines(block));
    r := if data == map[] then None else Some(data);
  }

  /** The loop over the lines of the block. */
  method ParseBlockLines(lines: seq<string>) returns (data: map<string, Value>)
    ensures data == ParseLines(Start, lines).data
  {
    data := map[];
    var current: Option<string> := None;
    for i := 0 to |lines|
      invariant ListKey(ParseState(data, current))
      invariant ParseState(data, current) == ParseLines(Start, lines[..i])
    {
      ParseLinesSnoc(lines, i);
      data, current := ParseOne(data, current, lines[i]);
    }
    assert lines[..|lines|] == lines;
  }

  lemma ParseLinesSnoc(lines: seq<string>, i: nat)
    requires i < |lines|
    ensures ParseLines(Start, lines[..i + 1]) == ParseLine(ParseLines(Start, lines[..i]), lines[i])
  {
    assert lines[..i + 1][..i] == lines[..i];
  }

  /** The loop body for one line. */
  method ParseOne(data0: map<string, Value>, current0: Option<string>, line: string)
    returns (data: map<string, Value>, current: Option<string>)
    requires ListKey(ParseState(data0, current0))
    ensures ParseState(data, current) == ParseLine(ParseState(data0, current0), line)
  {
    var l := LStrip(line);
    if StartsWith(l, "#") || l == "" {
      return data0, current0;
    }
    if |l| >= 2 && l[0] == '-' && IsSpace(l[1]) {
      data, current := AddItem(data0, current0, line);
    } else {
      data, current := SetField(data0, current0, line);
    }
  }

  /** A `- item` line extends the open list, if any, with the stripped item. */
  method AddItem(data0: map<string, Value>, current0: Option<string>, line: string)
    returns (data: map<string, Value>, current: Option<string>)
    requires ListKey(ParseState(data0, current0))
    requires !StartsWith(LStrip(line), "#") && LStrip(line) != "" && IsItem(line)
    ensures ParseState(data, current) == ParseLine(ParseState(data0, current0), line)
  {
    ParseItemLine(ParseState(data0, current0), line);
    data, current := data0, current0;
    if current.Some? {
      var item := Strip(LStrip(line)[1..]);
      if item != "" {
        data := data[current.value := VList(data[current.value].items + [VStr(item)])];
      }
    }
  }

  /** A `key: value` line sets the key; a list value opens it for items. */
  method SetField(data0: map<string, Value>, current0: Option<string>, line: string)
    returns (data: map<string, Value>, current: Option<string>)
    requires ListKey(ParseState(data0, current0))
    requires !StartsWith(LStrip(line), "#") && LStrip(line) != "" && !IsItem(line)
    ensures ParseState(data, current) == ParseLine(ParseState(data0, current0), line)
  {
    var colon := KeyColon(line);
    if colon.None? {
      ParseOtherLine(ParseState(data0, current0), line);
      return data0, current0;
    }
    ParseNonItemLine(ParseState(data0, current0), line);
    KeyColonBound(line, colon.value);
    FieldLineAt(ParseState(data0, current0), line, colon.value);
    var key := Strip(line[..colon.value]);
    var v := ReadValue(Strip(line[colon.value + 1..]));
    data := data0[key := v];
    current := if v.VList? then Some(key) else None;
  }

  /** The value after the colon: a bracketed list, an empty list that
      items may follow, or a scalar. */
  method ReadValue(val: string) returns (v: Value)
    ensures v == FieldValue(val)
    ensures v.VList? <==> (StartsWith(val, "[") && EndsWith(val, "]")) || val == ""
  {
    if StartsWith(val, "[") && EndsWith(val, "]") {
      return VList(BracketItems(val));
    }
    if val == "" {
      return VList([]);
    }
    return VStr(val);
  }

  /** The list-item case of `ParseLine`, unfolded. */
  lemma {:induction false} ParseItemLine(st: ParseState, line: string)
    requires ListKey(st) && !StartsWith(LStrip(line), "#") && LStrip(line) != "" && IsItem(line)
    ensures ParseLine(st, line) ==
      if st.current.None? || ItemText(line) == "" then st
      else st.(data := st.data[st.current.value := VList(st.data[st.current.value].items + [VStr(ItemText(line))])])
  {
  }

  /** A line that is neither an item nor `key:` leaves the state alone. */
  lemma {:induction false} ParseOtherLine(st: ParseState, line: string)
    requires ListKey(st) && !StartsWith(LStrip(line), "#") && LStrip(line) != "" && !IsItem(line)
    requires KeyColon(line).None?
    ensures ParseLine(st, line) == st
  {
  }

  /** A line that is neither blank, a comment nor an item is read by
      `FieldLine`. */
  lemma {:induction false} ParseNonItemLine(st: ParseState, line: string)
    requires ListKey(st) && !StartsWith(LStrip(line), "#") && LStrip(line) != "" && !IsItem(line)
    ensures ParseLine(st, line) == FieldLine(st, line)
  {
  }

  /** The `key: value` case of `FieldLine`, unfolded. */
  lemma {:induction false} FieldLineAt(st: ParseState, line: string, c: nat)
    requires ListKey(st) && KeyColon(line) == Some(c) && c < |line|
    ensures FieldLine(st, line) == KeyLine(st, Strip(line[..c]), Strip(line[c + 1..]))
  {
  }

  /** The colon found is inside the line. */
  lemma KeyColonBound(line: string, c: nat)
    requires KeyColon(line) == Some(c)
    ensures c < |line|
  {
    assert Find(line, ':') == Some(c);
  }


  // ---------------------------------------------------------------------------
  // Properties

  /** Every value read is a clean string or a list of clean strings. */
  predicate CleanValue(v: Value)
  {
    || (v.VStr? && Clean(v.s))
    || (v.VList? && forall x | x in v.items :: x.VStr? && Clean(x.s))
  }

  predicate CleanData(d: map<string, Value>)
  {
    forall k | k in d :: CleanValue(d[k])
  }

  lemma BracketItemsClean(val: string)
    ensures forall x | x in BracketItems(val) :: x.VStr? && Clean(x.s)
  {
    var inner := if |val| >= 2 then Strip(val[1..|val| - 1]) else "";
    var items := KeepStripped(SplitOn(inner, {','}));
    KeepStrippedSpec(SplitOn(inner, {','}));
    ScalarsOf(items);
  }

  /** Every scalar made from `items` is a scalar holding one of them. */
  lemma {:induction false} ScalarsOf(items: seq<string>)
    ensures forall i | 0 <= i < |items| :: Scalars(items)[i] == VStr(items[i])
    ensures forall x | x in Scalars(items) :: x.VStr? && x.s in items
  {
    if items != [] {
      ScalarsOf(items[1..]);
      assert forall i | 1 <= i < |items| :: Scalars(items)[i] == Scalars(items[1..])[i - 1];
    }
  }

  lemma FieldValueClean(val: string)
    requires Strip(val) == val
    ensures CleanValue(FieldValue(val))
  {
    BracketItemsClean(val);
    if val != "" {
      StripEnds(val);
    }
  }

  lemma AppendItemClean(d: map<string, Value>, k: string, item: string)
    requires CleanData(d) && k in d && d[k].VList? && Clean(item)
    ensures CleanData(d[k := VList(d[k].items + [VStr(item)])])
  {
    assert CleanValue(d[k]);
  }

  lemma PutClean(d: map<string, Value>, key: string, v: Value)
    requires CleanData(d) && CleanValue(v)
    ensures CleanData(d[key := v])
  {
  }

  lemma ParseLineClean(st: ParseState, line: string)
    requires ListKey(st) && CleanData(st.data)
    ensures CleanData(ParseLine(st, line).data)
  {
    var l := LStrip(line);
    if StartsWith(l, "#") || l == "" {
    } else if IsItem(line) {
      ItemLineClean(st, line);
    } else {
      KeyLineClean(st, line);
    }
  }

  /** A non-empty item appended under the current key keeps the data clean. */
  lemma ItemLineClean(st: ParseState, line: string)
    requires ListKey(st) && CleanData(st.data)
    requires !StartsWith(LStrip(line), "#") && LStrip(line) != "" && IsItem(line)
    ensures CleanData(ParseLine(st, line).data)
  {
    ParseItemLine(st, line);
    if st.current.Some? && ItemText(line) != "" {
      StripClean(LStrip(line)[1..]);
      AppendItemClean(st.data, st.current.value, ItemText(line));
    }
  }

  /** A `key: value` line keeps the data clean. */
  lemma KeyLineClean(st: ParseState, line: string)
    requires ListKey(st) && CleanData(st.data)
    requires !StartsWith(LStrip(line), "#") && LStrip(line) != "" && !IsItem(line)
    ensures CleanData(ParseLine(st, line).data)
  {
    match KeyColon(line)
    case None => ParseOtherLine(st, line);
    case Some(c) =>
      ParseNonItemLine(st, line);
      KeyColonBound(line, c);
      FieldLineAt(st, line, c);
      FieldClean(st.data, line, c);
  }

  lemma FieldClean(d: map<string, Value>, line: string, c: nat)
    requires CleanData(d) && c < |line|
    ensures CleanData(d[Strip(line[..c]) := FieldValue(Strip(line[c + 1..]))])
  {
    var val := Strip(line[c + 1..]);
    if val == "" {
      assert FieldValue(val) == VList([]);
    } else {
      StripClean(line[c + 1..]);
      FieldValueClean(val);
    }
    PutClean(d, Strip(line[..c]), FieldValue(val));
  }

  lemma {:induction false} ParseLinesClean(lines: seq<string>)
    ensures CleanData(ParseLines(Start, lines).data)
    decreases |lines|
  {
    if lines != [] {
      ParseLinesClean(lines[..|lines| - 1]);
      ParseLineClean(ParseLines(Start, lines[..|lines| - 1]), lines[|lines| - 1]);
    }
  }

  /** What a successful parse holds: scalars are non-empty and unpadded, and
      lists hold only such strings. */
  lemma ParsedIsClean(text: string)
    requires TryParseYamlBlock(text).Some?
    ensures CleanData(TryParseYamlBlock(text).value)
    ensures TryParseYamlBlock(text).value != map[]
  {
    ParseLinesClean(SplitLines(YamlBlock(text).value));
  }

  /** Reading `a` then `b` is reading `a + b`. */
  lemma {:induction false} ParseLinesAppend(st: ParseState, a: seq<string>, b: seq<string>)
    requires ListKey(st)
    ensures ParseLines(st, a + b) == ParseLines(ParseLines(st, a), b)
    decreases |b|
  {
    if b == [] {
      assert a + b == a;
    } else {
      ParseLinesAppend(st, a, b[..|b| - 1]);
      assert (a + b)[..|a + b| - 1] == a + b[..|b| - 1];
    }
  }
}
