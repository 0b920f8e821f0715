/** The attribution helpers of the command-line converter: the default
    attribution, the label built from a sidecar's metadata, the line-based
    reader used when no YAML library is present, the precedence between the
    environment, the sidecar and the default, and the output-stem rule. */
module Sidecar {
  import opened PyStr
  import opened Values

  /** The stand-in for a missing field. */
  const Unknown: string := "不明"

  /** `_METADATA_KEYS`: university, year, subject. */
  const MetadataKeys: seq<string> := ["大学名", "年度", "試験科目"]

  /** The attribution used when neither the environment nor a sidecar gives one. */
  const FallbackAttribution: string := "大学 年度 試験科目不明"

  /** The environment value after `strip`; an unset variable reads as empty. */
  function EnvText(env: Option<string>): string
  {
    match env
    case None => ""
    case Some(v) => Strip(v)
  }

  /** `DEFAULT_BLOCKQUOTE_ATTRIBUTION`: the stripped environment value if it
      is non-empty, else the fallback text. */
  function DefaultAttribution(env: Option<string>): (r: string)
    ensures r != ""
  {
    if EnvText(env) != "" then EnvText(env) else FallbackAttribution
  }

  // ---------------------------------------------------------------------------
  // build_blockquote_attribution

  /** A field as text: `None` is empty, a string is stripped, anything else is
      `str()`-ed and stripped. A missing key reads as the empty string. */
  function FieldText(data: map<string, Value>, key: string): string
  {
    match GetOr(data, key, VStr(""))
    case VNone => ""
    case VStr(s) => Strip(s)
    case other => Strip(Str(other))
  }

  /** One part of the label: the field text, or `不明` when it is empty. */
  function Part(data: map<string, Value>, key: string): string
  {
    var t := FieldText(data, key);
    if t == "" then Unknown else t
  }

  /** The parts for `keys`, in order. */
  function PartsOf(data: map<string, Value>, keys: seq<string>): (r: seq<string>)
    ensures |r| == |keys|
    decreases |keys|
  {
    if keys == [] then [] else PartsOf(data, keys[..|keys| - 1]) + [Part(data, keys[|keys| - 1])]
  }

  /** The label: the three parts joined by single spaces. */
  function BuildBlockquoteAttribution(data: map<string, Value>): string
  {
    Join(PartsOf(data, MetadataKeys), " ")
  }

  /** The source's loop over the keys. */
  method BuildAttribution(data: map<string, Value>) returns (r: string)
    ensures r == BuildBlockquoteAttribution(data)
  {
    var parts: seq<string> := [];
    for i := 0 to |MetadataKeys|
      invariant parts == PartsOf(data, MetadataKeys[..i])
    {
      var key := MetadataKeys[i];
      var raw := GetOr(data, key, VStr(""));
      var text;
      if raw.VNone? {
        text := "";
      } else if raw.VStr? {
        text := Strip(raw.s);
      } else {
        text := Strip(Str(raw));
      }
      parts := parts + [if text != "" then text else Unknown];
      assert MetadataKeys[..i + 1][..i] == MetadataKeys[..i];
    }
    assert MetadataKeys[..|MetadataKeys|] == MetadataKeys;
    r := Join(parts, " ");
  }

  /** The label is university, year and subject, in this order, each followed
      by one space except the last. */
  lemma BuildAttributionShape(data: map<string, Value>)
    ensures BuildBlockquoteAttribution(data)
         == Part(data, "大学名") + " " + Part(data, "年度") + " " + Part(data, "試験科目")
  {
    PartsOfThree(data, MetadataKeys);
    JoinThree(Part(data, "大学名"), Part(data, "年度"), Part(data, "試験科目"));
  }

  lemma PartsOfThree(data: map<string, Value>, ks: seq<string>)
    requires |ks| == 3
    ensures PartsOf(data, ks) == [Part(data, ks[0]), Part(data, ks[1]), Part(data, ks[2])]
  {
    assert ks[..2][..1] == ks[..1];
    assert ks[..1][..0] == [];
    assert PartsOf(data, ks[..1]) == [Part(data, ks[0])];
    assert PartsOf(data, ks[..2]) == [Part(data, ks[0])] + [Part(data, ks[1])];
  }

  lemma JoinThree(a: string, b: string, c: string)
    ensures Join([a, b, c], " ") == a + " " + b + " " + c
  {
    assert [a, b, c][1..] == [b, c];
    assert [b, c][1..] == [c];
    assert Join([b, c], " ") == b + " " + c;
    assert Join([a, b, c], " ") == a + " " + (b + " " + c);
  }

  /** Each part is non-empty; it is `不明` exactly when the field is blank,
      and otherwise the field text with no surrounding whitespace. */
  lemma PartSpec(data: map<string, Value>, key: string)
    ensures Part(data, key) != ""
    ensures FieldText(data, key) == "" ==> Part(data, key) == Unknown
    ensures FieldText(data, key) != "" ==> Part(data, key) == FieldText(data, key)
    ensures var p := Part(data, key); !IsSpace(p[0]) && !IsSpace(p[|p| - 1])
  {
    var t := FieldText(data, key);
    match GetOr(data, key, VStr(""))
    case VNone =>
    case VStr(s) => StripEnds(s);
    case other => StripEnds(Str(other));
  }

  /** A missing key, `None` or a blank string all read as `不明`. */
  lemma BlankFieldsAreUnknown(data: map<string, Value>, key: string, blank: string)
    requires forall k | 0 <= k < |blank| :: IsSpace(blank[k])
    requires key !in data || data[key] == VNone || data[key] == VStr(blank)
    ensures Part(data, key) == Unknown
  {
    if key in data && data[key] == VStr(blank) {
      StripOfSpace(blank);
    }
  }

  lemma {:induction false} StripOfSpace(s: string)
    requires forall k | 0 <= k < |s| :: IsSpace(s[k])
    ensures Strip(s) == ""
    decreases |s|
  {
    if s != [] {
      StripOfSpace(s[1..]);
      assert LStrip(s) == LStrip(s[1..]);
    }
  }

  /** The label is never empty. */
  lemma AttributionNonEmpty(data: map<string, Value>)
    ensures BuildBlockquoteAttribution(data) != ""
  {
    BuildAttributionShape(data);
  }

  // ---------------------------------------------------------------------------
  // The line reader used without a YAML library

  /** One line: a line holding `:` that is neither blank nor a `#` comment is
      split at its first `:`; the stripped key, when it is a metadata key,
      gets the stripped rest as its value. */
  function ReadLine(data: map<string, Value>, line: string): map<string, Value>
  {
    match Find(line, ':')
    case None => data
    case Some(c) =>
      var stripped := Strip(line);
      if stripped == "" || StartsWith(stripped, "#") then data
      else ReadKey(data, Strip(line[..c]), line[c + 1..])
  }

  /** A metadata key gets the stripped value; any other key is ignored. */
  function ReadKey(data: map<string, Value>, key: string, value: string): map<string, Value>
  {
    if key in MetadataKeys then data[key := VStr(Strip(value))] else data
  }

  /** The lines read in order on top of `data`, so a later line overwrites
      an earlier one. */
  function ReadFrom(data: map<string, Value>, lines: seq<string>): map<string, Value>
    decreases |lines|
  {
    if lines == [] then data else ReadLine(ReadFrom(data, lines[..|lines| - 1]), lines[|lines| - 1])
  }

  /** The reader on the sidecar's text, starting from an empty dict. */
  function ReadFallback(text: string): map<string, Value>
  {
    ReadFrom(map[], SplitLines(text))
  }

  /** The source's loop over the lines. */
  method LoadMetadataFallback(text: string) returns (data: map<string, Value>)
    ensures data == ReadFallback(text)
  {
    var lines := SplitLines(text);
    data := map[];
    for i := 0 to |lines|
      invariant data == ReadFrom(map[], lines[..i])
    {
      ReadFromSnoc(lines, i);
      data := ReadOne(data, lines[i]);
    }
    assert lines[..|lines|] == lines;
  }

  /** The loop body on one line. */
  method ReadOne(data0: map<string, Value>, line: string) returns (data: map<string, Value>)
    ensures data == ReadLine(data0, line)
  {
    data := data0;
    var colon := Find(line, ':');
    if colon.None? {
      ReadLineSkip(data0, line);
      return;
    }
    var stripped := Strip(line);
    if stripped == "" || StartsWith(stripped, "#") {
      ReadLineSkip(data0, line);
      return;
    }
    ReadLineField(data0, line, colon.value);
    var key := Strip(line[..colon.value]);
    var value := line[colon.value + 1..];
    if key in MetadataKeys {
      data := data[key := VStr(Strip(value))];
    }
  }

  /** A line without a colon, a blank line and a comment change nothing. */
  lemma {:induction false} ReadLineSkip(data: map<string, Value>, line: string)
    requires Find(line, ':').None? || Strip(line) == "" || StartsWith(Strip(line), "#")
    ensures ReadLine(data, line) == data
  {
  }

  /** Any other line is read at its first colon. */
  lemma {:induction false} ReadLineField(data: map<string, Value>, line: string, c: nat)
    requires Find(line, ':') == Some(c) && c < |line|
    requires Strip(line) != "" && !StartsWith(Strip(line), "#")
    ensures ReadLine(data, line) == ReadKey(data, Strip(line[..c]), line[c + 1..])
  {
  }

  lemma ReadFromSnoc(lines: seq<string>, i: nat)
    requires i < |lines|
    ensures ReadFrom(map[], lines[..i + 1]) == ReadLine(ReadFrom(map[], lines[..i]), lines[i])
  {
    assert lines[..i + 1][..i] == lines[..i];
  }

  /** Only the metadata keys are read, and always as strings. */
  lemma {:induction false} ReadLinesKeys(lines: seq<string>)
    ensures forall k | k in ReadFrom(map[], lines) :: k in MetadataKeys && ReadFrom(map[], lines)[k].VStr?
    decreases |lines|
  {
    if lines != [] {
      ReadLinesKeys(lines[..|lines| - 1]);
    }
  }

  /** Reading `a` then `b` is reading `a + b`. */
  lemma {:induction false} ReadFromAppend(data: map<string, Value>, a: seq<string>, b: seq<string>)
    ensures ReadFrom(data, a + b) == ReadFrom(ReadFrom(data, a), b)
    decreases |b|
  {
    if b == [] {
      assert a + b == a;
    } else {
      ReadFromAppend(data, a, b[..|b| - 1]);
      assert (a + b)[..|a + b| - 1] == a + b[..|b| - 1];
    }
  }

  /** A line that the reader does not consider leaves what was read so far. */
  lemma SkippedLine(data: map<string, Value>, line: string)
    requires Find(line, ':').None? || Strip(line) == "" || StartsWith(Strip(line), "#")
    ensures ReadLine(data, line) == data
  {
  }

  // ---------------------------------------------------------------------------
  // resolve_blockquote_attribution

  datatype Source = Environment | Metadata | Fallback

  /** The attribution, where it came from, and the keys read as unknown. */
  datatype Resolution = Resolution(attr: string, source: Source, missing: seq<string>)

  /** The keys among `keys`, in order, whose field text is empty. */
  function MissingFrom(data: map<string, Value>, keys: seq<string>): seq<string>
    decreases |keys|
  {
    if keys == [] then []
    else
      var rest := MissingFrom(data, keys[..|keys| - 1]);
      if FieldText(data, keys[|keys| - 1]) == "" then rest + [keys[|keys| - 1]] else rest
  }

  /** The precedence: the environment, then a found sidecar (`sidecar` is what
      the loader returned for it), then the default. */
  function Resolve(env: Option<string>, sidecar: Option<map<string, Value>>): Resolution
  {
    if EnvText(env) != "" then Resolution(DefaultAttribution(env), Environment, [])
    else match sidecar
      case Some(data) => Resolution(BuildBlockquoteAttribution(data), Metadata, MissingFrom(data, MetadataKeys))
      case None => Resolution(DefaultAttribution(env), Fallback, MetadataKeys)
  }

  /** The source's conditional with its loop over the keys. */
  method ResolveBlockquoteAttribution(env: Option<string>, sidecar: Option<map<string, Value>>) returns (r: Resolution)
    ensures r == Resolve(env, sidecar)
  {
    if EnvText(env) != "" {
      return Resolution(DefaultAttribution(env), Environment, []);
    }
    if sidecar.Some? {
      var data := sidecar.value;
      var missing: seq<string> := [];
      for i := 0 to |MetadataKeys|
        invariant missing == MissingFrom(data, MetadataKeys[..i])
      {
        var key := MetadataKeys[i];
        assert MetadataKeys[..i + 1][..i] == MetadataKeys[..i];
        var raw := Get(data, key);
        var text;
        if raw.VStr? {
          text := Strip(raw.s);
        } else if raw.VNone? {
          text := "";
        } else {
          text := Strip(Str(raw));
        }
        if text == "" {
          missing := missing + [key];
        }
      }
      assert MetadataKeys[..|MetadataKeys|] == MetadataKeys;
      var attr := BuildAttribution(data);
      return Resolution(attr, Metadata, missing);
    }
    return Resolution(DefaultAttribution(env), Fallback, MetadataKeys);
  }

  /** A key is missing exactly when it is one of `keys` with empty text. */
  lemma {:induction false} MissingFromSpec(data: map<string, Value>, keys: seq<string>, k: string)
    ensures k in MissingFrom(data, keys) <==> k in keys && FieldText(data, k) == ""
    decreases |keys|
  {
    if keys != [] {
      var init := keys[..|keys| - 1];
      MissingFromSpec(data, init, k);
      assert keys == init + [keys[|keys| - 1]];
    }
  }

  /** What each source of the attribution yields. */
  lemma ResolveSpec(env: Option<string>, sidecar: Option<map<string, Value>>)
    ensures var r := Resolve(env, sidecar);
      && (EnvText(env) != "" ==> r == Resolution(EnvText(env), Environment, []))
      && (EnvText(env) == "" && sidecar.None? ==> r == Resolution(FallbackAttribution, Fallback, MetadataKeys))
      && (EnvText(env) == "" && sidecar.Some? ==>
            && r.source == Metadata
            && r.attr == BuildBlockquoteAttribution(sidecar.value)
            && r.attr != ""
            && (forall k :: k in r.missing <==> k in MetadataKeys && FieldText(sidecar.value, k) == "")
            && (forall k | k in r.missing :: Part(sidecar.value, k) == Unknown))
  {
    if EnvText(env) == "" && sidecar.Some? {
      var data := sidecar.value;
      AttributionNonEmpty(data);
      forall k
        ensures k in MissingFrom(data, MetadataKeys) <==> k in MetadataKeys && FieldText(data, k) == ""
      {
        MissingFromSpec(data, MetadataKeys, k);
      }
    }
  }

  // ---------------------------------------------------------------------------
  // _normalize_stem

  const AnswerSuffix: string := "_解答解説"

  /** The output stem: unchanged if it already holds the suffix, else suffixed. */
  function NormalizeStem(stem: string): string
  {
    if Contains(stem, AnswerSuffix) then stem else stem + AnswerSuffix
  }

  /** The result always holds the suffix; a stem holding it is kept, any other
      gets it appended once; applying the rule twice is applying it once. */
  lemma NormalizeStemSpec(stem: string)
    ensures Contains(NormalizeStem(stem), AnswerSuffix)
    ensures NormalizeStem(stem) == stem <==> Contains(stem, AnswerSuffix)
    ensures NormalizeStem(NormalizeStem(stem)) == NormalizeStem(stem)
  {
    if !Contains(stem, AnswerSuffix) {
      ContainsSelf(AnswerSuffix);
      ContainsInfix(stem, AnswerSuffix, "", AnswerSuffix);
      assert stem + AnswerSuffix + "" == stem + AnswerSuffix;
    }
  }
}
