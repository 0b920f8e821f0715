/** The symbol sanitizer (`_sanitize_symbols`, `sanitize_symbols_v36`): each
    checkbox glyph of a fixed table is replaced by an ASCII stand-in, in table
    order, and then every code point outside the Basic Multilingual Plane is
    deleted. */
module Symbols {
  import opened PyStr

  /** The replacement table, in its insertion order. */
  const Replacements: seq<(char, string)> := [
    ('\U{2610}', "[ ]"),        // BALLOT BOX
    ('\U{2611}', "[x]"),        // BALLOT BOX WITH CHECK
    ('\U{1F518}', "(\U{25CF})"), // RADIO BUTTON, to a BLACK CIRCLE in parentheses
    ('\U{26AA}', "( )"),        // MEDIUM WHITE CIRCLE
    ('\U{2B1C}', "[ ]")         // WHITE LARGE SQUARE
  ]

  /** A code point in U+10000..U+10FFFF. */
  predicate IsAstral(c: char)
  {
    c >= '\U{10000}'
  }

  /** One of the five glyphs of the table. */
  predicate IsGlyph(c: char)
  {
    c == '\U{2610}' || c == '\U{2611}' || c == '\U{1F518}' || c == '\U{26AA}' || c == '\U{2B1C}'
  }

  /** What the sanitizer makes of one code point, written out case by case. */
  function SanitizeChar(c: char): (r: string)
    ensures forall k | 0 <= k < |r| :: !IsAstral(r[k]) && !IsGlyph(r[k])
  {
    if c == '\U{2610}' || c == '\U{2B1C}' then "[ ]"
    else if c == '\U{2611}' then "[x]"
    else if c == '\U{1F518}' then "(\U{25CF})"
    else if c == '\U{26AA}' then "( )"
    else if IsAstral(c) then ""
    else [c]
  }

  /** The sanitizer's result, code point by code point. */
  function Sanitize(s: string): string
  {
    if s == [] then [] else SanitizeChar(s[0]) + Sanitize(s[1..])
  }

  /** `s.replace(src, dst)` for a one-code-point `src`. */
  function Replace(s: string, src: char, dst: string): string
  {
    if s == [] then [] else (if s[0] == src then dst else [s[0]]) + Replace(s[1..], src, dst)
  }

  /** `ASTRAL_RE.sub("", s)` */
  function RemoveAstral(s: string): string
  {
    if s == [] then [] else (if IsAstral(s[0]) then [] else [s[0]]) + RemoveAstral(s[1..])
  }

  /** The sanitizer as the source runs it: one `replace` per table entry, then
      the deletion of astral code points. */
  method SanitizeSymbols(text: string) returns (r: string)
    ensures r == Sanitize(text)
  {
    r := text;
    ReplacedNothing(text);
    for k := 0 to |Replacements|
      invariant r == ReplacedUpTo(text, k)
    {
      ReplaceStep(text, k);
      r := Replace(r, Replacements[k].0, Replacements[k].1);
    }
    RemoveAfterReplace(text);
    r := RemoveAstral(r);
  }

  // ---------------------------------------------------------------------------
  // From the table to the per-code-point description

  /** The replacement that the first `k` table entries give `c`, if any. */
  function Lookup(c: char, k: nat): Option<string>
    requires k <= |Replacements|
  {
    if k == 0 then None
    else match Lookup(c, k - 1)
      case Some(d) => Some(d)
      case None => if Replacements[k - 1].0 == c then Some(Replacements[k - 1].1) else None
  }

  /** `c` after the first `k` table entries have been applied. */
  function Partial(c: char, k: nat): string
    requires k <= |Replacements|
  {
    match Lookup(c, k)
    case Some(d) => d
    case None => [c]
  }

  /** A string after the first `k` table entries have been applied. */
  function ReplacedUpTo(s: string, k: nat): string
    requires k <= |Replacements|
  {
    if s == [] then [] else Partial(s[0], k) + ReplacedUpTo(s[1..], k)
  }

  lemma {:induction false} ReplacedNothing(s: string)
    ensures ReplacedUpTo(s, 0) == s
    decreases |s|
  {
    if s != [] {
      ReplacedNothing(s[1..]);
      assert Partial(s[0], 0) == [s[0]];
    }
  }

  lemma {:induction false} ReplaceConcat(a: string, b: string, src: char, dst: string)
    ensures Replace(a + b, src, dst) == Replace(a, src, dst) + Replace(b, src, dst)
    decreases |a|
  {
    if a != [] {
      var h := if a[0] == src then dst else [a[0]];
      assert (a + b)[0] == a[0] && (a + b)[1..] == a[1..] + b;
      ReplaceConcat(a[1..], b, src, dst);
      assert Replace(a + b, src, dst) == h + Replace(a[1..] + b, src, dst);
      assert Replace(a, src, dst) == h + Replace(a[1..], src, dst);
      assert h + (Replace(a[1..], src, dst) + Replace(b, src, dst))
          == (h + Replace(a[1..], src, dst)) + Replace(b, src, dst);
    } else {
      assert a + b == b;
    }
  }

  lemma {:induction false} RemoveAstralConcat(a: string, b: string)
    ensures RemoveAstral(a + b) == RemoveAstral(a) + RemoveAstral(b)
    decreases |a|
  {
    if a != [] {
      var h := if IsAstral(a[0]) then [] else [a[0]];
      assert (a + b)[0] == a[0] && (a + b)[1..] == a[1..] + b;
      RemoveAstralConcat(a[1..], b);
      assert RemoveAstral(a + b) == h + RemoveAstral(a[1..] + b);
      assert RemoveAstral(a) == h + RemoveAstral(a[1..]);
      assert h + (RemoveAstral(a[1..]) + RemoveAstral(b)) == (h + RemoveAstral(a[1..])) + RemoveAstral(b);
    } else {
      assert a + b == b;
    }
  }

  /** The stand-ins contain neither glyphs nor astral code points. */
  lemma StandInsAreClean(j: nat)
    requires j < |Replacements|
    ensures forall m | 0 <= m < |Replacements[j].1| :: !IsGlyph(Replacements[j].1[m]) && !IsAstral(Replacements[j].1[m])
  {
  }

  lemma {:induction false} ReplaceNoSource(s: string, src: char, dst: string)
    requires forall m | 0 <= m < |s| :: s[m] != src
    ensures Replace(s, src, dst) == s
    decreases |s|
  {
    if s != [] {
      ReplaceNoSource(s[1..], src, dst);
    }
  }

  lemma {:induction false} RemoveAstralNone(s: string)
    requires forall m | 0 <= m < |s| :: !IsAstral(s[m])
    ensures RemoveAstral(s) == s
    decreases |s|
  {
    if s != [] {
      RemoveAstralNone(s[1..]);
    }
  }

  /** A found replacement is one of the stand-ins. */
  lemma {:induction false} LookupIsStandIn(c: char, k: nat)
    requires k <= |Replacements| && Lookup(c, k).Some?
    ensures exists j | 0 <= j < k :: Lookup(c, k).value == Replacements[j].1
  {
    if Lookup(c, k - 1).Some? {
      LookupIsStandIn(c, k - 1);
    }
  }

  /** Applying one more table entry to one code point. */
  lemma PartialStep(c: char, k: nat)
    requires k < |Replacements|
    ensures Replace(Partial(c, k), Replacements[k].0, Replacements[k].1) == Partial(c, k + 1)
  {
    var src, dst := Replacements[k].0, Replacements[k].1;
    match Lookup(c, k)
    case Some(d) =>
      LookupIsStandIn(c, k);
      var j :| 0 <= j < k && d == Replacements[j].1;
      StandInsAreClean(j);
      ReplaceNoSource(d, src, dst);
    case None =>
      assert Partial(c, k) == [c];
      assert Replace([c], src, dst) == (if c == src then dst else [c]) + Replace([], src, dst);
  }

  lemma {:induction false} ReplaceStep(s: string, k: nat)
    requires k < |Replacements|
    ensures Replace(ReplacedUpTo(s, k), Replacements[k].0, Replacements[k].1) == ReplacedUpTo(s, k + 1)
    decreases |s|
  {
    if s != [] {
      ReplaceConcat(Partial(s[0], k), ReplacedUpTo(s[1..], k), Replacements[k].0, Replacements[k].1);
      PartialStep(s[0], k);
      ReplaceStep(s[1..], k);
    }
  }

  /** The whole table maps each glyph to its stand-in and leaves every other
      code point alone. */
  lemma PartialFull(c: char)
    ensures Partial(c, |Replacements|) == if IsGlyph(c) then SanitizeChar(c) else [c]
  {
    assert Lookup(c, 1) == if c == '\U{2610}' then Some("[ ]") else None;
    assert Lookup(c, 2) == if c == '\U{2610}' then Some("[ ]") else if c == '\U{2611}' then Some("[x]") else None;
    assert Lookup(c, 3).None? <==> !(c == '\U{2610}' || c == '\U{2611}' || c == '\U{1F518}');
    assert Lookup(c, 4).None? <==> !(c == '\U{2610}' || c == '\U{2611}' || c == '\U{1F518}' || c == '\U{26AA}');
  }

  /** After the whole table, deleting astral code points gives the
      per-code-point description. */
  lemma PartialThenRemove(c: char)
    ensures RemoveAstral(Partial(c, |Replacements|)) == SanitizeChar(c)
  {
    PartialFull(c);
    if IsGlyph(c) {
      RemoveAstralNone(SanitizeChar(c));
    } else {
      assert RemoveAstral([c]) == (if IsAstral(c) then [] else [c]) + RemoveAstral([]);
    }
  }

  lemma {:induction false} RemoveAfterReplace(s: string)
    ensures RemoveAstral(ReplacedUpTo(s, |Replacements|)) == Sanitize(s)
    decreases |s|
  {
    if s != [] {
      RemoveAstralConcat(Partial(s[0], |Replacements|), ReplacedUpTo(s[1..], |Replacements|));
      PartialThenRemove(s[0]);
      RemoveAfterReplace(s[1..]);
    }
  }

  // ---------------------------------------------------------------------------
  // Properties of the sanitizer

  /** The output holds no astral code point and none of the table glyphs. */
  lemma {:induction false} SanitizeClean(s: string)
    ensures forall m | 0 <= m < |Sanitize(s)| :: !IsAstral(Sanitize(s)[m]) && !IsGlyph(Sanitize(s)[m])
    decreases |s|
  {
    if s != [] {
      SanitizeClean(s[1..]);
      var h, t := SanitizeChar(s[0]), Sanitize(s[1..]);
      assert Sanitize(s) == h + t;
      assert forall m | |h| <= m < |h + t| :: (h + t)[m] == t[m - |h|];
    }
  }

  /** Text without astral code points and glyphs passes through unchanged. */
  lemma {:induction false} SanitizeUnchanged(s: string)
    requires forall m | 0 <= m < |s| :: !IsAstral(s[m]) && !IsGlyph(s[m])
    ensures Sanitize(s) == s
    decreases |s|
  {
    if s != [] {
      SanitizeUnchanged(s[1..]);
    }
  }

  /** Sanitizing twice is sanitizing once. */
  lemma SanitizeIdempotent(s: string)
    ensures Sanitize(Sanitize(s)) == Sanitize(s)
  {
    SanitizeClean(s);
    SanitizeUnchanged(Sanitize(s));
  }

  /** The sanitizer works code point by code point, so it distributes over
      concatenation. */
  lemma {:induction false} SanitizeConcat(a: string, b: string)
    ensures Sanitize(a + b) == Sanitize(a) + Sanitize(b)
    decreases |a|
  {
    if a != [] {
      var h := SanitizeChar(a[0]);
      assert (a + b)[0] == a[0] && (a + b)[1..] == a[1..] + b;
      SanitizeConcat(a[1..], b);
      assert Sanitize(a + b) == h + Sanitize(a[1..] + b);
      assert Sanitize(a) == h + Sanitize(a[1..]);
      assert h + (Sanitize(a[1..]) + Sanitize(b)) == (h + Sanitize(a[1..])) + Sanitize(b);
    } else {
      assert a + b == b;
    }
  }

  /** The radio button becomes `(●)` rather than vanishing: the table runs
      before the astral deletion. */
  lemma RadioButtonKept()
    ensures Sanitize("\U{1F518}") == "(\U{25CF})"
    ensures Sanitize("a\U{1F600}b") == "ab"
  {
    assert "a\U{1F600}b"[1..] == "\U{1F600}b";
    assert "\U{1F600}b"[1..] == "b";
  }
}
