/** `_is_unknown_field`, `enforce_and_fill_fields` and `render_front_matter`
    of the metadata generator: the parsed reply is cut down to the required
    keys, blank fields are guessed from the file name, the entity list is
    normalized, and the result is written out as a `---` block. */
module MetadataFill {
  import opened PyStr
  import opened Values
  import opened MetadataParser

  const University: string := "大学名"
  const Year: string := "年度"
  const Subject: string := "試験科目"
  const FirstQuestion: string := "最初の問題番号"
  const LastQuestion: string := "最後の問題番号"
  const SourcePath: string := "参照ファイルパス"
  const GeneratedAt: string := "生成日時"
  const Entities: string := "エンティティリスト"

  /** `REQUIRED_KEYS`, in order. */
  const RequiredKeys: seq<string> :=
    [University, Year, Subject, FirstQuestion, LastQuestion, SourcePath, GeneratedAt, Entities]

  /** The required keys as a set. */
  const RequiredKeySet: set<string> := set k | k in RequiredKeys

  /** The most entities kept. */
  const MaxEntities: nat := 20

  /** `None`, or a value whose `str()` strips to nothing or to `不明`. */
  predicate IsUnknownField(v: Value)
  {
    v.VNone? || Strip(Str(v)) == "" || Strip(Str(v)) == "不明"
  }

  // ---------------------------------------------------------------------------
  // Guesses from the file name

  predicate IsDigit(c: char)
  {
    '0' <= c <= '9'
  }

  /** `20[0-9]{2}` or `19[0-9]{2}` at `i`. */
  predicate YearAt(name: string, i: nat)
  {
    && i + 4 <= |name|
    && ((name[i] == '2' && name[i + 1] == '0') || (name[i] == '1' && name[i + 1] == '9'))
    && IsDigit(name[i + 2]) && IsDigit(name[i + 3])
  }

  /** The leftmost year at or after `i`. */
  function FindYear(name: string, i: nat): (r: Option<nat>)
    requires i <= |name|
    ensures r.Some? ==> i <= r.value && YearAt(name, r.value)
    decreases |name| - i
  {
    if i == |name| then None
    else if YearAt(name, i) then Some(i)
    else FindYear(name, i + 1)
  }

  /** The group `re.search` finds in the file name, or `""`. */
  function YearIn(name: string): string
  {
    match FindYear(name, 0)
    case Some(i) => name[i..i + 4]
    case None => ""
  }

  lemma {:induction false} FindYearIsFirst(name: string, i: nat)
    requires i <= |name|
    ensures match FindYear(name, i)
      case Some(k) => forall m | i <= m < k :: !YearAt(name, m)
      case None => forall m | i <= m < |name| :: !YearAt(name, m)
    decreases |name| - i
  {
    if i < |name| && !YearAt(name, i) {
      FindYearIsFirst(name, i + 1);
    }
  }

  /** The year guess is empty exactly when the name holds no year, and is
      otherwise four digits starting `19` or `20`, taken at the first place
      where such a year occurs. */
  lemma YearInSpec(name: string)
    ensures YearIn(name) == "" <==> forall m | 0 <= m < |name| :: !YearAt(name, m)
    ensures YearIn(name) != "" ==>
      exists m | 0 <= m < |name| ::
        YearAt(name, m) && YearIn(name) == name[m..m + 4] && forall j | 0 <= j < m :: !YearAt(name, j)
    ensures YearIn(name) != "" ==> |YearIn(name)| == 4 && YearAt(YearIn(name), 0)
  {
    FindYearIsFirst(name, 0);
  }

  const AnswerMark: string := "解答解説"

  /** `re.sub(r"_?解答解説$", "", stem)`: the mark, with an underscore before
      it if there is one, is removed at the end or before a final newline. */
  function RemoveAnswerMark(stem: string): string
  {
    var nl := if EndsWith(stem, "\n") then "\n" else "";
    var body := stem[..|stem| - |nl|];
    if EndsWith(body, "_" + AnswerMark) then body[..|body| - 5] + nl
    else if EndsWith(body, AnswerMark) then body[..|body| - 4] + nl
    else stem
  }

  /** Putting the removed mark back gives the stem. */
  lemma RemoveAnswerMarkSpec(stem: string)
    ensures !EndsWith(stem, "\n") ==>
      || RemoveAnswerMark(stem) == stem
      || RemoveAnswerMark(stem) + AnswerMark == stem
      || RemoveAnswerMark(stem) + "_" + AnswerMark == stem
    ensures EndsWith(stem, "_" + AnswerMark) ==> RemoveAnswerMark(stem) + "_" + AnswerMark == stem
    ensures !EndsWith(stem, "\n") && !EndsWith(stem, "_" + AnswerMark) && EndsWith(stem, AnswerMark) ==>
      RemoveAnswerMark(stem) + AnswerMark == stem
    ensures !EndsWith(stem, "\n") && !EndsWith(stem, AnswerMark) ==> RemoveAnswerMark(stem) == stem
  {
    if EndsWith(stem, "_" + AnswerMark) {
      UnderscoreMarkRemoved(stem);
    } else if !EndsWith(stem, "\n") && EndsWith(stem, AnswerMark) {
      MarkRemoved(stem);
    } else if !EndsWith(stem, "\n") && !EndsWith(stem, AnswerMark) {
      NoMarkKept(stem);
    }
  }

  lemma UnderscoreMarkRemoved(stem: string)
    requires EndsWith(stem, "_" + AnswerMark)
    ensures RemoveAnswerMark(stem) + "_" + AnswerMark == stem
  {
    assert stem[|stem| - 1] == ("_" + AnswerMark)[4];
    assert stem[..|stem| - 0] == stem;
    assert stem == stem[..|stem| - 5] + stem[|stem| - 5..];
  }

  lemma MarkRemoved(stem: string)
    requires !EndsWith(stem, "\n") && !EndsWith(stem, "_" + AnswerMark) && EndsWith(stem, AnswerMark)
    ensures RemoveAnswerMark(stem) + AnswerMark == stem
  {
    assert stem[..|stem| - 0] == stem;
    assert stem == stem[..|stem| - 4] + stem[|stem| - 4..];
  }

  lemma NoMarkKept(stem: string)
    requires !EndsWith(stem, "\n") && !EndsWith(stem, AnswerMark)
    ensures RemoveAnswerMark(stem) == stem
  {
    assert stem[..|stem| - 0] == stem;
  }

  // ---------------------------------------------------------------------------
  // The entity list

  /** The strings of `ents`, first occurrences only, in order. */
  function Unique(ents: seq<Value>): (r: seq<Value>)
    decreases |ents|
  {
    if ents == [] then []
    else
      var u := Unique(ents[..|ents| - 1]);
      var e := ents[|ents| - 1];
      if e.VStr? && e !in u then u + [e] else u
  }

  predicate NoDup<T(==)>(s: seq<T>)
  {
    forall i, j | 0 <= i < j < |s| :: s[i] != s[j]
  }

  /** The index of the first occurrence of `x` in `ents`. */
  function IndexOf(ents: seq<Value>, x: Value): (r: nat)
    requires x in ents
    ensures r < |ents| && ents[r] == x
    decreases |ents|
  {
    var init := ents[..|ents| - 1];
    if x in init then IndexOf(init, x) else |ents| - 1
  }

  /** No earlier element equals `x`. */
  lemma {:induction false} IndexOfFirst(ents: seq<Value>, x: Value)
    requires x in ents
    ensures forall j | 0 <= j < IndexOf(ents, x) :: ents[j] != x
    decreases |ents|
  {
    var init := ents[..|ents| - 1];
    if x in init {
      IndexOfFirst(init, x);
    } else {
      assert forall j | 0 <= j < |init| :: ents[j] == init[j];
    }
  }

  /** `Unique` keeps exactly the strings, each once, ordered by where each
      first occurs. */
  lemma {:induction false} UniqueSpec(ents: seq<Value>)
    ensures NoDup(Unique(ents))
    ensures forall x :: x in Unique(ents) <==> x in ents && x.VStr?
    ensures forall a, b | 0 <= a < b < |Unique(ents)| ::
      IndexOf(ents, Unique(ents)[a]) < IndexOf(ents, Unique(ents)[b])
    decreases |ents|
  {
    if ents != [] {
      var init := ents[..|ents| - 1];
      var e := ents[|ents| - 1];
      UniqueSpec(init);
      assert ents == init + [e];
      var u := Unique(init);
      forall x | x in u
        ensures IndexOf(ents, x) == IndexOf(init, x) < |init|
      {
      }
      if e.VStr? && e !in u {
        assert e !in init;
        assert IndexOf(ents, e) == |init|;
      }
    }
  }

  /** The kept strings come first: a string of `ents` that `Take` of the
      unique strings leaves out first occurs after every string it keeps. */
  lemma TakeUniqueFirst(ents: seq<Value>, n: nat)
    ensures forall x, y | x in Take(Unique(ents), n) && x in ents && y in ents && y.VStr? && y !in Take(Unique(ents), n) ::
      IndexOf(ents, x) < IndexOf(ents, y)
  {
    UniqueSpec(ents);
    var u := Unique(ents);
    var r := Take(u, n);
    assert r == u[..|r|];
    forall x, y | x in r && x in ents && y in ents && y.VStr? && y !in r
      ensures IndexOf(ents, x) < IndexOf(ents, y)
    {
      var a :| 0 <= a < |r| && r[a] == x;
      assert y in u;
      var b :| 0 <= b < |u| && u[b] == y;
      assert forall k | 0 <= k < |r| :: r[k] == u[k];
      assert u[a] == x;
    }
  }

  /** The source's loop with its `seen` set. */
  method Dedupe(ents: seq<Value>) returns (uniq: seq<Value>)
    ensures uniq == Unique(ents)
  {
    var seen: set<string> := {};
    uniq := [];
    for i := 0 to |ents|
      invariant uniq == Unique(ents[..i])
      invariant forall s :: s in seen <==> VStr(s) in uniq
    {
      var e := ents[i];
      assert ents[..i + 1][..i] == ents[..i];
      if !e.VStr? {
        continue;
      }
      if e.s !in seen {
        seen := seen + {e.s};
        uniq := uniq + [e];
      }
    }
    assert ents[..|ents|] == ents;
  }

  /** `xs[:n]` */
  function Take<T>(xs: seq<T>, n: nat): (r: seq<T>)
    ensures |r| <= n && |r| <= |xs| && r == xs[..|r|]
    ensures |xs| <= n ==> r == xs
  {
    if |xs| <= n then xs else xs[..n]
  }

  /** The comma (ASCII or `、`) separated parts of a string, stripped, blank
      ones dropped, as values. */
  function EntityParts(s: string): seq<Value>
  {
    Scalars(KeepStripped(SplitOn(s, {',', '、'})))
  }

  /** The entity list after normalization. */
  function NormalizeEntities(ents: Value): seq<Value>
  {
    match ents
    case VList(items) => Take(Unique(items), MaxEntities)
    case VStr(s) => if Strip(s) != "" then Take(EntityParts(s), MaxEntities) else []
    case _ => []
  }

  /** At most twenty entities, all strings; a list keeps its first distinct
      strings in order; a string is cut at its commas; nothing else gives any. */
  lemma NormalizeEntitiesSpec(ents: Value)
    ensures |NormalizeEntities(ents)| <= MaxEntities
    ensures forall x | x in NormalizeEntities(ents) :: x.VStr?
    ensures ents.VList? ==>
      && NoDup(NormalizeEntities(ents))
      && (forall x | x in NormalizeEntities(ents) :: x in ents.items)
      && (forall a, b | 0 <= a < b < |NormalizeEntities(ents)| ::
            IndexOf(ents.items, NormalizeEntities(ents)[a]) < IndexOf(ents.items, NormalizeEntities(ents)[b]))
      && (|NormalizeEntities(ents)| < MaxEntities ==>
            forall y | y in ents.items && y.VStr? :: y in NormalizeEntities(ents))
      && (forall x, y | x in NormalizeEntities(ents) && y in ents.items && y.VStr? && y !in NormalizeEntities(ents) ::
            IndexOf(ents.items, x) < IndexOf(ents.items, y))
    ensures ents.VStr? && Strip(ents.s) != "" ==>
      && (forall x | x in NormalizeEntities(ents) :: Clean(x.s) && forall j | 0 <= j < |x.s| :: x.s[j] != ',' && x.s[j] != '、')
      && (forall x | x in NormalizeEntities(ents) ::
            exists p | p in SplitOn(ents.s, {',', '、'}) :: x == VStr(Strip(p)))
      && (|NormalizeEntities(ents)| < MaxEntities ==>
            forall p | p in SplitOn(ents.s, {',', '、'}) && Strip(p) != "" :: VStr(Strip(p)) in NormalizeEntities(ents))
    ensures !ents.VList? && !(ents.VStr? && Strip(ents.s) != "") ==> NormalizeEntities(ents) == []
  {
    match ents
    case VList(items) =>
      NormalizeListSpec(items);
    case VStr(s) =>
      if Strip(s) != "" {
        NormalizeTextSpec(s);
      }
    case _ =>
  }

  /** The list case: the first distinct strings, in order of first occurrence. */
  lemma NormalizeListSpec(items: seq<Value>)
    ensures var r := Take(Unique(items), MaxEntities);
      && |r| <= MaxEntities
      && (forall x | x in r :: x.VStr?)
      && NoDup(r)
      && (forall x | x in r :: x in items)
      && (forall a, b | 0 <= a < b < |r| :: IndexOf(items, r[a]) < IndexOf(items, r[b]))
      && (|r| < MaxEntities ==> forall y | y in items && y.VStr? :: y in r)
      && (forall x, y | x in r && y in items && y.VStr? && y !in r :: IndexOf(items, x) < IndexOf(items, y))
  {
    UniqueSpec(items);
    TakeUniqueFirst(items, MaxEntities);
    var u := Unique(items);
    var r := Take(u, MaxEntities);
    assert r == u[..|r|];
    assert forall x | x in r :: x in u;
    if |r| < MaxEntities {
      assert r == u;
    }
    forall a, b | 0 <= a < b < |r|
      ensures IndexOf(items, r[a]) < IndexOf(items, r[b])
    {
      assert r[a] == u[a] && r[b] == u[b];
    }
  }

  /** The text case: clean pieces of the text, all of them when fewer than
      twenty. */
  lemma NormalizeTextSpec(s: string)
    requires Strip(s) != ""
    ensures var r := Take(EntityParts(s), MaxEntities);
      && |r| <= MaxEntities
      && (forall x | x in r :: x.VStr? && Clean(x.s) && forall j | 0 <= j < |x.s| :: x.s[j] != ',' && x.s[j] != '、')
      && (forall x | x in r :: exists p | p in SplitOn(s, {',', '、'}) :: x == VStr(Strip(p)))
      && (|r| < MaxEntities ==>
            forall p | p in SplitOn(s, {',', '、'}) && Strip(p) != "" :: VStr(Strip(p)) in r)
  {
    var pieces := SplitOn(s, {',', '、'});
    var parts := KeepStripped(pieces);
    KeepStrippedSpec(pieces);
    SplitOnParts(s, {',', '、'});
    var r := Take(EntityParts(s), MaxEntities);
    ScalarsOf(parts);
    forall x | x in r
      ensures x.VStr? && Clean(x.s) && forall j | 0 <= j < |x.s| :: x.s[j] != ',' && x.s[j] != '、'
      ensures exists p | p in pieces :: x == VStr(Strip(p))
    {
      assert x in EntityParts(s);
      var p :| p in pieces && x.s == Strip(p);
      StripInside(p);
    }
    if |r| < MaxEntities {
      assert r == EntityParts(s);
      forall p | p in pieces && Strip(p) != ""
        ensures VStr(Strip(p)) in r
      {
        var i :| 0 <= i < |parts| && parts[i] == Strip(p);
        assert r[i] == VStr(parts[i]);
      }
    }
  }

  /** Every character of `strip(p)` is a character of `p`. */
  lemma StripInside(p: string)
    ensures forall j | 0 <= j < |Strip(p)| :: Strip(p)[j] in p
  {
    var l := LStrip(p);
    LStripIsSuffix(p);
    RStripIsPrefix(l);
    forall j | 0 <= j < |Strip(p)|
      ensures Strip(p)[j] in p
    {
      assert Strip(p)[j] == l[j] == p[|p| - |l| + j];
    }
  }

  // ---------------------------------------------------------------------------
  // enforce_and_fill_fields

  /** The filled record. `relPath` is the reference path the caller
      computed, `name` and `stem` are the source file's name and stem, and
      `universityGuess` is what the name-based university search found. */
  function EnforceAndFill(data: map<string, Value>, name: string, stem: string, relPath: string,
                          now: string, universityGuess: string): map<string, Value>
  {
    FillRecord(data, relPath, now, VStr(YearIn(name)), VStr(RemoveAnswerMark(stem)), VStr(universityGuess))
  }

  /** The record filled with the given guesses for the year, the subject and
      the university. */
  function FillRecord(data: map<string, Value>, relPath: string, now: string,
                      yearGuess: Value, subjectGuess: Value, universityGuess: Value): map<string, Value>
  {
    var base := map k | k in RequiredKeys :: Get(data, k);
    var withPath := base[SourcePath := VStr(relPath)][GeneratedAt := VStr(now)];
    var withYear := withPath[Year := Pick(withPath[Year], yearGuess)];
    var withSubject := withYear[Subject := Pick(withYear[Subject], subjectGuess)];
    var withUniversity := withSubject[University := Pick(withSubject[University], universityGuess)];
    withUniversity[Entities := VList(NormalizeEntities(withUniversity[Entities]))]
  }

  /** A truthy value is kept; an untruthy one gives way to the guess. */
  function Pick(v: Value, guess: Value): Value
  {
    if Truthy(v) then v else guess
  }

  /** The source's function: a loop over the required keys, then the
      overrides and guesses, then the entity normalization. */
  method EnforceAndFillFields(data: map<string, Value>, name: string, stem: string, relPath: string,
                              now: string, universityGuess: string) returns (merged: map<string, Value>)
    ensures merged == EnforceAndFill(data, name, stem, relPath, now, universityGuess)
  {
    merged := RequiredFields(data);
    assert Year in merged && Subject in merged && University in merged && Entities in merged;
    merged := merged[SourcePath := VStr(relPath)];
    merged := merged[GeneratedAt := VStr(now)];
    merged := FillIfMissing(merged, Year, VStr(YearIn(name)));
    merged := FillIfMissing(merged, Subject, VStr(RemoveAnswerMark(stem)));
    merged := FillIfMissing(merged, University, VStr(universityGuess));
    var ents := NormalizeEntityField(Get(merged, Entities));
    merged := merged[Entities := VList(ents)];
  }

  /** One guessed field: an untruthy value is replaced by the guess. */
  method FillIfMissing(m: map<string, Value>, k: string, guess: Value) returns (r: map<string, Value>)
    requires k in m
    ensures r == if Truthy(m[k]) then m else m[k := guess]
    ensures r == m[k := Pick(m[k], guess)]
  {
    r := m;
    if !Truthy(Get(m, k)) {
      r := m[k := guess];
    } else {
      assert m[k := m[k]] == m;
    }
  }

  /** `merged[k] = data.get(k)` for each required key. */
  method RequiredFields(data: map<string, Value>) returns (merged: map<string, Value>)
    ensures merged == map k | k in RequiredKeys :: Get(data, k)
  {
    merged := map[];
    for i := 0 to |RequiredKeys|
      invariant merged == map k | k in RequiredKeys[..i] :: Get(data, k)
    {
      var k := RequiredKeys[i];
      assert RequiredKeys[..i + 1] == RequiredKeys[..i] + [k];
      merged := merged[k := Get(data, k)];
    }
    assert RequiredKeys[..|RequiredKeys|] == RequiredKeys;
  }

  /** The three branches on the entity value. */
  method NormalizeEntityField(ents: Value) returns (r: seq<Value>)
    ensures r == NormalizeEntities(ents)
  {
    if ents.VList? {
      var uniq := Dedupe(ents.items);
      r := Take(uniq, MaxEntities);
    } else if ents.VStr? && Strip(ents.s) != "" {
      r := Take(EntityParts(ents.s), MaxEntities);
    } else {
      r := [];
    }
  }

  /** The filled record has exactly the required keys; the path and time are
      the caller's; the question numbers are the reply's; a truthy university,
      year or subject is kept and an untruthy one is guessed; the entities
      are a normalized list. */
  lemma EnforceAndFillSpec(data: map<string, Value>, name: string, stem: string, relPath: string,
                           now: string, universityGuess: string)
    ensures var m := EnforceAndFill(data, name, stem, relPath, now, universityGuess);
      && m.Keys == RequiredKeySet
      && m[SourcePath] == VStr(relPath)
      && m[GeneratedAt] == VStr(now)
      && m[FirstQuestion] == Get(data, FirstQuestion)
      && m[LastQuestion] == Get(data, LastQuestion)
      && m[University] == (if Truthy(Get(data, University)) then Get(data, University) else VStr(universityGuess))
      && m[Year] == (if Truthy(Get(data, Year)) then Get(data, Year) else VStr(YearIn(name)))
      && m[Subject] == (if Truthy(Get(data, Subject)) then Get(data, Subject) else VStr(RemoveAnswerMark(stem)))
      && m[Entities] == VList(NormalizeEntities(Get(data, Entities)))
  {
    FillRecordSpec(data, relPath, now, VStr(YearIn(name)), VStr(RemoveAnswerMark(stem)), VStr(universityGuess));
  }

  /** `FillRecord` field by field, for any guesses. */
  lemma FillRecordSpec(data: map<string, Value>, relPath: string, now: string,
                       yearGuess: Value, subjectGuess: Value, universityGuess: Value)
    ensures var m := FillRecord(data, relPath, now, yearGuess, subjectGuess, universityGuess);
      && m.Keys == RequiredKeySet
      && m[SourcePath] == VStr(relPath)
      && m[GeneratedAt] == VStr(now)
      && m[FirstQuestion] == Get(data, FirstQuestion)
      && m[LastQuestion] == Get(data, LastQuestion)
      && m[University] == (if Truthy(Get(data, University)) then Get(data, University) else universityGuess)
      && m[Year] == (if Truthy(Get(data, Year)) then Get(data, Year) else yearGuess)
      && m[Subject] == (if Truthy(Get(data, Subject)) then Get(data, Subject) else subjectGuess)
      && m[Entities] == VList(NormalizeEntities(Get(data, Entities)))
  {
    KeysDistinct();
    FilledKeys(data, relPath, now, yearGuess, subjectGuess, universityGuess);
  }

  /** Every override and guess writes a required key, so the keys stay
      exactly the required ones. */
  lemma FilledKeys(data: map<string, Value>, relPath: string, now: string,
                   yearGuess: Value, subjectGuess: Value, universityGuess: Value)
    ensures FillRecord(data, relPath, now, yearGuess, subjectGuess, universityGuess).Keys == RequiredKeySet
  {
    var base := map k | k in RequiredKeys :: Get(data, k);
    assert base.Keys == RequiredKeySet;
    assert SourcePath in base && GeneratedAt in base && Entities in base;
    assert Year in base && Subject in base && University in base;
  }

  lemma KeysDistinct()
    ensures University != Year && University != Subject && Year != Subject
    ensures SourcePath !in {University, Year, Subject, Entities, FirstQuestion, LastQuestion}
    ensures GeneratedAt !in {University, Year, Subject, Entities, FirstQuestion, LastQuestion, SourcePath}
    ensures Entities !in {University, Year, Subject}
    ensures FirstQuestion !in {University, Year, Subject, SourcePath, GeneratedAt, Entities}
    ensures LastQuestion !in {University, Year, Subject, SourcePath, GeneratedAt, Entities}
  {
    assert FirstQuestion[0] == LastQuestion[0];
    assert LastQuestion[0] != University[0] && LastQuestion[0] != Year[0] && LastQuestion[0] != Subject[0];
    assert LastQuestion[0] != SourcePath[0] && LastQuestion[0] != GeneratedAt[0] && LastQuestion[0] != Entities[0];
    assert University[0] != Year[0] && University[0] != Subject[0] && Year[0] != Subject[0];
    assert SourcePath[0] != University[0] && SourcePath[0] != Year[0] && SourcePath[0] != Subject[0];
    assert SourcePath[0] != Entities[0] && SourcePath[0] != FirstQuestion[0] && SourcePath[0] != LastQuestion[0];
    assert GeneratedAt[0] != University[0] && GeneratedAt[0] != Year[0] && GeneratedAt[0] != Subject[0];
    assert GeneratedAt[0] != Entities[0] && GeneratedAt[0] != FirstQuestion[0];
    assert GeneratedAt[0] != LastQuestion[0] && GeneratedAt[0] != SourcePath[0];
    assert Entities[0] != University[0] && Entities[0] != Year[0] && Entities[0] != Subject[0];
  }

  /** The filled entity list is at most twenty strings. */
  lemma FilledEntities(data: map<string, Value>, name: string, stem: string, relPath: string,
                       now: string, universityGuess: string)
    ensures var e := EnforceAndFill(data, name, stem, relPath, now, universityGuess)[Entities];
      e.VList? && |e.items| <= MaxEntities && forall x | x in e.items :: x.VStr?
  {
    EnforceAndFillSpec(data, name, stem, relPath, now, universityGuess);
    NormalizeEntitiesSpec(Get(data, Entities));
  }

  // ---------------------------------------------------------------------------
  // render_front_matter

  /** The keys written as `key: value`, in the order of the source. */
  const RenderedKeys: seq<string> := [University, Year, Subject, FirstQuestion, LastQuestion, SourcePath, GeneratedAt]

  /** The text of a field: `str` of the value, `""` when the key is absent. */
  function FieldText(data: map<string, Value>, k: string): string
  {
    Str(GetOr(data, k, VStr("")))
  }

  function FieldLines(data: map<string, Value>, keys: seq<string>): (r: seq<string>)
    ensures |r| == |keys|
  {
    seq(|keys|, i requires 0 <= i < |keys| => keys[i] + ": " + FieldText(data, keys[i]))
  }

  /** The entities to write: the list, or none for any other value. */
  function EntityValues(data: map<string, Value>): seq<Value>
  {
    var ents := GetOr(data, Entities, VList([]));
    if ents.VList? then ents.items else []
  }

  function EntityLines(ents: seq<Value>): (r: seq<string>)
    ensures |r| == |ents|
  {
    seq(|ents|, i requires 0 <= i < |ents| => "  - " + Str(ents[i]))
  }

  function RenderLines(data: map<string, Value>): seq<string>
  {
    ["---"] + FieldLines(data, RenderedKeys) + [Entities + ":"] + EntityLines(EntityValues(data)) + ["---"]
  }

  /** The rendered block, lines joined by `\n` (no final newline). */
  function RenderFrontMatter(data: map<string, Value>): string
  {
    Join(RenderLines(data), "\n")
  }

  /** The source's function, appending line by line. */
  method RenderFrontMatterText(data: map<string, Value>) returns (r: string)
    ensures r == RenderFrontMatter(data)
  {
    var lines := RenderFields(data);
    lines := lines + [Entities + ":"];
    var ents := GetOr(data, Entities, VList([]));
    if !ents.VList? {
      ents := VList([]);
    }
    assert ents.items == EntityValues(data);
    lines := RenderEntities(lines, ents.items);
    lines := lines + ["---"];
    r := Join(lines, "\n");
  }

  /** The opening line and one `key: value` line per rendered key. */
  method RenderFields(data: map<string, Value>) returns (lines: seq<string>)
    ensures lines == ["---"] + FieldLines(data, RenderedKeys)
  {
    lines := ["---"];
    lines := lines + [University + ": " + FieldText(data, University)];
    lines := lines + [Year + ": " + FieldText(data, Year)];
    lines := lines + [Subject + ": " + FieldText(data, Subject)];
    lines := lines + [FirstQuestion + ": " + FieldText(data, FirstQuestion)];
    lines := lines + [LastQuestion + ": " + FieldText(data, LastQuestion)];
    lines := lines + [SourcePath + ": " + FieldText(data, SourcePath)];
    lines := lines + [GeneratedAt + ": " + FieldText(data, GeneratedAt)];
  }

  /** The loop over the entities: one `  - entity` line each. */
  method RenderEntities(head: seq<string>, items: seq<Value>) returns (lines: seq<string>)
    ensures lines == head + EntityLines(items)
  {
    lines := head;
    for i := 0 to |items|
      invariant lines == head + EntityLines(items[..i])
    {
      assert EntityLines(items[..i + 1]) == EntityLines(items[..i]) + ["  - " + Str(items[i])];
      lines := lines + ["  - " + Str(items[i])];
    }
    assert items[..|items|] == items;
  }

  /** The block has ten lines plus one per entity; it opens and closes with
      `---`; line `1 + i` is the `i`-th rendered key, a colon and a space;
      entity `i` is on line `9 + i` behind `  - `; a `None` field reads `None`. */
  lemma RenderLinesSpec(data: map<string, Value>)
    ensures var lines := RenderLines(data);
      && |lines| == 10 + |EntityValues(data)|
      && lines[0] == "---" && lines[|lines| - 1] == "---"
      && (forall i | 0 <= i < 7 :: lines[1 + i] == RenderedKeys[i] + ": " + FieldText(data, RenderedKeys[i]))
      && lines[8] == Entities + ":"
      && (forall i | 0 <= i < |EntityValues(data)| :: lines[9 + i] == "  - " + Str(EntityValues(data)[i]))
    ensures forall k | k in data && data[k] == VNone :: FieldText(data, k) == "None"
  {
  }
}
