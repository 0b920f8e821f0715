/** The web pipeline's attribution text `_build_attribution_text`: university,
    year, subject and author, each stripped and replaced by `不明` when it is
    missing or blank, joined by single spaces. This text is what the
    converter then appends under every blockquote. */
module Pipeline {
  import opened PyStr
  import opened Blockquotes

  /** The stand-in for a missing form field. */
  const Unknown: string := "不明"

  /** `(v or "").strip() or "不明"` for one form field, where `None` is an
      absent field. */
  function FieldOrUnknown(v: Option<string>): string
  {
    var t := if v.None? then "" else Strip(v.value);
    if t == "" then Unknown else t
  }

  /** The four fields in order, joined by single spaces. */
  function BuildAttributionText(university: Option<string>, year: Option<string>,
                                subject: Option<string>, author: Option<string>): string
  {
    Join([FieldOrUnknown(university), FieldOrUnknown(year), FieldOrUnknown(subject), FieldOrUnknown(author)], " ")
  }

  /** A field part is never empty and never padded; a field with text keeps
      that text without its padding, and a missing or blank field becomes
      `不明`. */
  lemma FieldOrUnknownSpec(v: Option<string>)
    ensures FieldOrUnknown(v) != ""
    ensures var p := FieldOrUnknown(v); !IsSpace(p[0]) && !IsSpace(p[|p| - 1])
    ensures v.Some? && Strip(v.value) != "" ==> FieldOrUnknown(v) == Strip(v.value)
    ensures v.None? || Strip(v.value) == "" ==> FieldOrUnknown(v) == Unknown
  {
    if v.Some? {
      StripEnds(v.value);
    }
  }

  /** Feeding a part back in as its field gives the same part. */
  lemma FieldOrUnknownIdempotent(v: Option<string>)
    ensures FieldOrUnknown(Some(FieldOrUnknown(v))) == FieldOrUnknown(v)
  {
    FieldOrUnknownSpec(v);
    StripUnpadded(FieldOrUnknown(v));
  }

  lemma JoinFour(a: string, b: string, c: string, d: string)
    ensures Join([a, b, c, d], " ") == a + " " + b + " " + c + " " + d
  {
    assert [a, b, c, d][1..] == [b, c, d];
    assert [b, c, d][1..] == [c, d];
    assert [c, d][1..] == [d];
    assert Join([c, d], " ") == c + " " + d;
    assert Join([b, c, d], " ") == b + " " + (c + " " + d);
    assert Join([a, b, c, d], " ") == a + " " + (b + " " + (c + " " + d));
  }

  /** The text is the four parts separated by single spaces; it is never
      empty and is not padded. */
  lemma AttributionTextShape(university: Option<string>, year: Option<string>,
                             subject: Option<string>, author: Option<string>)
    ensures var u, y, s, a := FieldOrUnknown(university), FieldOrUnknown(year),
                              FieldOrUnknown(subject), FieldOrUnknown(author);
      BuildAttributionText(university, year, subject, author) == u + " " + y + " " + s + " " + a
    ensures var r := BuildAttributionText(university, year, subject, author);
      r != "" && !IsSpace(r[0]) && !IsSpace(r[|r| - 1])
  {
    var u, y, s, a := FieldOrUnknown(university), FieldOrUnknown(year),
                      FieldOrUnknown(subject), FieldOrUnknown(author);
    JoinFour(u, y, s, a);
    FieldOrUnknownSpec(university);
    FieldOrUnknownSpec(author);
    var r := u + " " + y + " " + s + " " + a;
    assert r[0] == u[0];
    assert r[|r| - 1] == a[|a| - 1];
  }

  /** Form fields without line boundaries give a one-line attribution. */
  lemma AttributionTextNoBreak(university: Option<string>, year: Option<string>,
                               subject: Option<string>, author: Option<string>)
    requires university.Some? ==> NoBreak(university.value)
    requires year.Some? ==> NoBreak(year.value)
    requires subject.Some? ==> NoBreak(subject.value)
    requires author.Some? ==> NoBreak(author.value)
    ensures NoBreak(BuildAttributionText(university, year, subject, author))
  {
    var u, y, s, a := FieldOrUnknown(university), FieldOrUnknown(year),
                      FieldOrUnknown(subject), FieldOrUnknown(author);
    FieldNoBreak(university);
    FieldNoBreak(year);
    FieldNoBreak(subject);
    FieldNoBreak(author);
    AttributionTextShape(university, year, subject, author);
    NoBreakConcat(u, " ");
    NoBreakConcat(u + " ", y);
    NoBreakConcat(u + " " + y, " ");
    NoBreakConcat(u + " " + y + " ", s);
    NoBreakConcat(u + " " + y + " " + s, " ");
    NoBreakConcat(u + " " + y + " " + s + " ", a);
  }

  lemma FieldNoBreak(v: Option<string>)
    requires v.Some? ==> NoBreak(v.value)
    ensures NoBreak(FieldOrUnknown(v))
  {
    if v.Some? {
      StripNoBreak(v.value);
    }
  }

  /** With one-line form fields, running the web converter's blockquote step
      twice with the pipeline's attribution gives the text of one run. */
  lemma PipelineInjectIdempotent(text: string, university: Option<string>, year: Option<string>,
                                 subject: Option<string>, author: Option<string>)
    requires university.Some? ==> NoBreak(university.value)
    requires year.Some? ==> NoBreak(year.value)
    requires subject.Some? ==> NoBreak(subject.value)
    requires author.Some? ==> NoBreak(author.value)
    ensures var attr := BuildAttributionText(university, year, subject, author);
      InjectText(InjectText(text, attr, AppMarkers(attr)), attr, AppMarkers(attr))
        == InjectText(text, attr, AppMarkers(attr))
  {
    var attr := BuildAttributionText(university, year, subject, author);
    AttributionTextNoBreak(university, year, subject, author);
    InjectTextIdempotent(text, attr, AppMarkers(attr));
  }
}
