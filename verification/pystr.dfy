/** Python `str` primitives that the Markdown pipeline relies on, over sequences
    of Unicode scalar values (a Dafny `char` is a Python code point).

    `str.isspace`, `strip`, `lstrip`, `rstrip` use CPython's Unicode whitespace set;
    `splitlines` splits on every line boundary CPython recognises, with "\r\n"
    counted as one boundary. */
module PyStr {

  datatype Option<+T> = None | Some(value: T)

  /** `c.isspace()`: tab..carriage return, the information separators
      U+001C..U+001F, space, NEL, NBSP, OGHAM SPACE MARK, U+2000..U+200A,
      LINE/PARAGRAPH SEPARATOR, NNBSP, MMSP and IDEOGRAPHIC SPACE. */
  predicate IsSpace(c: char) {
    || ('\t' <= c <= '\r')
    || ('\U{1C}' <= c <= ' ')
    || c == '\U{85}' || c == '\U{A0}' || c == '\U{1680}'
    || ('\U{2000}' <= c <= '\U{200A}')
    || c == '\U{2028}' || c == '\U{2029}' || c == '\U{202F}' || c == '\U{205F}'
    || c == '\U{3000}'
  }

  /** The code points at which `str.splitlines` ends a line. */
  predicate IsLineBreak(c: char) {
    || c == '\n' || c == '\r' || c == '\U{B}' || c == '\U{C}'
    || ('\U{1C}' <= c <= '\U{1E}')
    || c == '\U{85}' || c == '\U{2028}' || c == '\U{2029}'
  }

  predicate NoBreak(s: string) {
    forall j | 0 <= j < |s| :: !IsLineBreak(s[j])
  }

  predicate StartsWith(s: string, prefix: string) {
    |prefix| <= |s| && s[..|prefix|] == prefix
  }

  predicate EndsWith(s: string, suffix: string) {
    |suffix| <= |s| && s[|s| - |suffix|..] == suffix
  }

  predicate IsAt(s: string, sub: string, i: nat) {
    i + |sub| <= |s| && s[i..i + |sub|] == sub
  }

  /** `sub in s` */
  predicate Contains(s: string, sub: string) {
    exists i | 0 <= i <= |s| :: IsAt(s, sub, i)
  }

  /** `s.lstrip()` */
  function LStrip(s: string): (r: string)
    ensures |r| <= |s|
    ensures r != [] ==> !IsSpace(r[0])
  {
    if s != [] && IsSpace(s[0]) then LStrip(s[1..]) else s
  }

  /** `s.rstrip()` */
  function RStrip(s: string): (r: string)
    ensures |r| <= |s|
    ensures r != [] ==> !IsSpace(r[|r| - 1])
  {
    if s != [] && IsSpace(s[|s| - 1]) then RStrip(s[..|s| - 1]) else s
  }

  /** `s.strip()` */
  function Strip(s: string): (r: string)
    ensures |r| <= |s|
  {
    RStrip(LStrip(s))
  }

  /** `lstrip` keeps a suffix. */
  lemma {:induction false} LStripIsSuffix(s: string)
    ensures LStrip(s) == s[|s| - |LStrip(s)|..]
    decreases |s|
  {
    if s != [] && IsSpace(s[0]) {
      LStripIsSuffix(s[1..]);
    }
  }

  /** `rstrip` keeps a prefix. */
  lemma {:induction false} RStripIsPrefix(s: string)
    ensures RStrip(s) == s[..|RStrip(s)|]
    decreases |s|
  {
    if s != [] && IsSpace(s[|s| - 1]) {
      RStripIsPrefix(s[..|s| - 1]);
    }
  }

  /** `strip` leaves no whitespace at either end. */
  lemma StripEnds(s: string)
    ensures Strip(s) != [] ==> !IsSpace(Strip(s)[0]) && !IsSpace(Strip(s)[|Strip(s)| - 1])
  {
    RStripIsPrefix(LStrip(s));
  }

  /** A line is its leading whitespace followed by its `lstrip`. */
  lemma LeadingThenRest(s: string)
    ensures Leading(s) + LStrip(s) == s
  {
    LStripIsSuffix(s);
    var k := |s| - |LStrip(s)|;
    assert Leading(s) == s[..k] && LStrip(s) == s[k..];
    assert s[..k] + s[k..] == s;
  }

  /** `lstrip` removes only whitespace. */
  lemma {:induction false} LStripRemovesSpace(s: string)
    ensures forall i | 0 <= i < |s| - |LStrip(s)| :: IsSpace(s[i])
    decreases |s|
  {
    if s != [] && IsSpace(s[0]) {
      LStripRemovesSpace(s[1..]);
    }
  }

  /** `rstrip` removes only whitespace. */
  lemma {:induction false} RStripRemovesSpace(s: string)
    ensures forall i | |RStrip(s)| <= i < |s| :: IsSpace(s[i])
    decreases |s|
  {
    if s != [] && IsSpace(s[|s| - 1]) {
      RStripRemovesSpace(s[..|s| - 1]);
    }
  }

  /** The leading whitespace of a line is whitespace. */
  lemma LeadingIsSpace(s: string)
    ensures forall i | 0 <= i < |Leading(s)| :: IsSpace(Leading(s)[i])
  {
    LStripRemovesSpace(s);
    assert forall i | 0 <= i < |Leading(s)| :: Leading(s)[i] == s[i];
  }

  /** A string with no whitespace at either end is its own strip. */
  lemma StripUnpadded(s: string)
    requires s != [] ==> !IsSpace(s[0]) && !IsSpace(s[|s| - 1])
    ensures Strip(s) == s
  {
  }

  /** Whitespace and nothing else. */
  predicate Blank(s: string) {
    forall j | 0 <= j < |s| :: IsSpace(s[j])
  }

  /** A blank string strips to nothing from the right. */
  lemma BlankRStrip(w: string)
    requires Blank(w)
    ensures RStrip(w) == ""
  {
    RStripIsPrefix(w);
  }

  /** A blank string strips to nothing from the left. */
  lemma BlankLStrip(w: string)
    requires Blank(w)
    ensures LStrip(w) == ""
  {
    LStripIsSuffix(w);
  }

  /** `rstrip` of a concatenation reaches into the front part only when the
      back part is blank. */
  lemma {:induction false} RStripAppend(p: string, s: string)
    ensures RStrip(p + s) == if RStrip(s) == "" then RStrip(p) else p + RStrip(s)
    decreases |s|
  {
    if s == [] {
      assert p + s == p;
    } else if IsSpace(s[|s| - 1]) {
      assert (p + s)[..|p + s| - 1] == p + s[..|s| - 1];
      RStripAppend(p, s[..|s| - 1]);
    } else {
      assert (p + s)[|p + s| - 1] == s[|s| - 1];
    }
  }

  /** `lstrip` of a concatenation reaches into the back part only when the
      front part is blank. */
  lemma {:induction false} LStripAppend(a: string, b: string)
    ensures LStrip(a + b) == if LStrip(a) == "" then LStrip(b) else LStrip(a) + b
    decreases |a|
  {
    if a == [] {
      assert a + b == b;
    } else if IsSpace(a[0]) {
      assert (a + b)[1..] == a[1..] + b;
      LStripAppend(a[1..], b);
    }
  }

  /** Stripping the right end first does not change `strip`. */
  lemma StripOfRStrip(x: string)
    ensures Strip(RStrip(x)) == Strip(x)
  {
    var r := RStrip(x);
    var w := x[|r|..];
    RStripIsPrefix(x);
    RStripRemovesSpace(x);
    assert x == r + w;
    assert Blank(w);
    BlankRStrip(w);
    LStripAppend(r, w);
    if LStrip(r) == "" {
      BlankLStrip(w);
    } else {
      RStripAppend(LStrip(r), w);
    }
  }

  /** `s[:len(s) - len(s.lstrip())]`, the leading whitespace of a line. */
  function Leading(s: string): string
  {
    s[..|s| - |LStrip(s)|]
  }

  /** Index of the first line boundary at or after `i`, or `|s|` if there is none. */
  function LineEnd(s: string, i: nat): (k: nat)
    requires i <= |s|
    ensures i <= k <= |s|
    ensures k < |s| ==> IsLineBreak(s[k])
    decreases |s| - i
  {
    if i == |s| || IsLineBreak(s[i]) then i else LineEnd(s, i + 1)
  }

  /** No line boundary lies before the one `LineEnd` finds. */
  lemma {:induction false} LineEndSpec(s: string, i: nat)
    requires i <= |s|
    ensures forall j | i <= j < LineEnd(s, i) :: !IsLineBreak(s[j])
    decreases |s| - i
  {
    if i < |s| && !IsLineBreak(s[i]) {
      LineEndSpec(s, i + 1);
    }
  }

  /** Width of the boundary at `k`: "\r\n" is a single boundary. */
  function BreakWidth(s: string, k: nat): nat
    requires k < |s|
  {
    if s[k] == '\r' && k + 1 < |s| && s[k + 1] == '\n' then 2 else 1
  }

  /** `s.splitlines()` (keepends=False) */
  function SplitLines(s: string): (lines: seq<string>)
    ensures lines == [] <==> s == []
    decreases |s|
  {
    if s == [] then []
    else
      var k := LineEnd(s, 0);
      if k == |s| then [s]
      else [s[..k]] + SplitLines(s[k + BreakWidth(s, k)..])
  }

  /** Text with a line boundary splits into the line before it and the
      lines of what follows the boundary. */
  lemma SplitLinesAtBreak(s: string, k: nat)
    requires s != [] && k == LineEnd(s, 0) && k < |s|
    ensures SplitLines(s) == [s[..k]] + SplitLines(s[k + BreakWidth(s, k)..])
  {
  }

  /** No line of `splitlines` holds a line boundary. */
  lemma {:induction false} SplitLinesNoBreak(s: string)
    ensures forall l | l in SplitLines(s) :: NoBreak(l)
    decreases |s|
  {
    if s != [] {
      var k := LineEnd(s, 0);
      LineEndSpec(s, 0);
      if k < |s| {
        SplitLinesNoBreak(s[k + BreakWidth(s, k)..]);
      }
    }
  }

  /** `sep.join(parts)` */
  function Join(parts: seq<string>, sep: string): string
  {
    if parts == [] then ""
    else if |parts| == 1 then parts[0]
    else parts[0] + sep + Join(parts[1..], sep)
  }

  /** `"\n".join(lines) + ("\n" if trailing else "")`: how every line-based stage
      reassembles its output. */
  function JoinLines(lines: seq<string>, trailing: bool): string
  {
    Join(lines, "\n") + (if trailing then "\n" else "")
  }

  /** `s.find(c)` as an option: the first index holding `c`. */
  function Find(s: string, c: char): (r: Option<nat>)
    ensures r.Some? ==> r.value < |s|
    decreases |s|
  {
    if s == [] then None
    else if s[0] == c then Some(0)
    else match Find(s[1..], c)
      case None => None
      case Some(k) => Some(k + 1)
  }

  /** The last `n` elements of `s` (Python `s[-n:]`). */
  function LastN<T>(s: seq<T>, n: nat): (r: seq<T>)
    ensures |r| <= n && |r| <= |s|
    ensures r == s[|s| - |r|..]
    ensures |s| <= n ==> r == s
  {
    if |s| <= n then s else s[|s| - n..]
  }

  // ---------------------------------------------------------------------------
  // Lemmas about the primitives

  lemma ContainsAt(s: string, sub: string, i: nat)
    requires IsAt(s, sub, i)
    ensures Contains(s, sub)
  {
  }

  lemma {:induction false} ContainsSelf(s: string)
    ensures Contains(s, s)
  {
    assert IsAt(s, s, 0);
  }

  /** A substring of a part is a substring of the whole. */
  lemma ContainsInfix(a: string, b: string, c: string, sub: string)
    requires Contains(b, sub)
    ensures Contains(a + b + c, sub)
  {
    var i :| 0 <= i <= |b| && IsAt(b, sub, i);
    assert (a + b + c)[|a| + i..|a| + i + |sub|] == b[i..i + |sub|];
    assert IsAt(a + b + c, sub, |a| + i);
  }

  /** Every part is a substring of their join. */
  lemma {:induction false} JoinContainsPart(parts: seq<string>, sep: string, k: nat, sub: string)
    requires k < |parts|
    requires Contains(parts[k], sub)
    ensures Contains(Join(parts, sep), sub)
    decreases |parts|
  {
    if |parts| == 1 {
    } else if k == 0 {
      ContainsInfix([], parts[0], sep + Join(parts[1..], sep), sub);
      assert [] + parts[0] + (sep + Join(parts[1..], sep)) == Join(parts, sep);
    } else {
      JoinContainsPart(parts[1..], sep, k - 1, sub);
      ContainsInfix(parts[0] + sep, Join(parts[1..], sep), [], sub);
      assert parts[0] + sep + Join(parts[1..], sep) + [] == Join(parts, sep);
    }
  }

  lemma {:induction false} JoinAppend(parts: seq<string>, x: string, sep: string)
    ensures Join(parts + [x], sep) == if parts == [] then x else Join(parts, sep) + sep + x
    decreases |parts|
  {
    if |parts| == 1 {
      assert (parts + [x])[1..] == [x];
    } else if |parts| > 1 {
      var tail := parts[1..];
      assert (parts + [x])[1..] == tail + [x];
      assert Join(parts + [x], sep) == parts[0] + sep + Join(tail + [x], sep);
      JoinAppend(tail, x, sep);
      AppendAssoc(parts[0] + sep, Join(tail, sep), sep + x);
    }
  }

  lemma AppendAssoc<T>(a: seq<T>, b: seq<T>, c: seq<T>)
    ensures a + (b + c) == (a + b) + c
  {
  }

  lemma {:induction false} JoinEndsWithLast(parts: seq<string>, sep: string)
    requires parts != []
    ensures EndsWith(Join(parts, sep), parts[|parts| - 1])
    decreases |parts|
  {
    if |parts| > 1 {
      JoinEndsWithLast(parts[1..], sep);
    }
  }

  /** The first boundary of `x + y` is at `|x|` when `x` has none and `y` begins with one. */
  lemma LineEndAfter(x: string, y: string)
    requires NoBreak(x) && y != [] && IsLineBreak(y[0])
    ensures LineEnd(x + y, 0) == |x|
  {
    var s := x + y;
    LineEndSpec(s, 0);
    assert s[|x|] == y[0];
    assert forall j | 0 <= j < |x| :: s[j] == x[j];
  }

  /** Splitting a line without boundaries, followed by a newline and more text. */
  lemma SplitLinesCons(x: string, tail: string)
    requires NoBreak(x)
    ensures SplitLines(x + "\n" + tail) == [x] + SplitLines(tail)
  {
    var s := x + "\n" + tail;
    assert s == x + ("\n" + tail);
    LineEndAfter(x, "\n" + tail);
    assert s[..|x|] == x;
    assert s[|x| + 1..] == tail;
  }

  lemma SplitLinesSingle(x: string)
    requires NoBreak(x) && x != []
    ensures SplitLines(x) == [x]
  {
    assert LineEnd(x, 0) == |x|;
  }

  /** What `SplitLines` gives back for reassembled lines: the lines themselves,
      except that a final empty line is absorbed when no trailing newline is
      added, and an empty list with a trailing newline comes back as one empty line. */
  function Resplit(lines: seq<string>, trailing: bool): seq<string>
  {
    if lines == [] && trailing then [""]
    else if lines != [] && !trailing && lines[|lines| - 1] == "" then lines[..|lines| - 1]
    else lines
  }

  lemma JoinLinesCons(x: string, rest: seq<string>, trailing: bool)
    requires NoBreak(x) && rest != []
    ensures SplitLines(JoinLines([x] + rest, trailing)) == [x] + SplitLines(JoinLines(rest, trailing))
  {
    var lines := [x] + rest;
    assert lines[1..] == rest;
    assert JoinLines(lines, trailing) == x + "\n" + JoinLines(rest, trailing);
    SplitLinesCons(x, JoinLines(rest, trailing));
  }

  lemma JoinLinesSingle(x: string, trailing: bool)
    requires NoBreak(x)
    ensures SplitLines(JoinLines([x], trailing)) == Resplit([x], trailing)
  {
    if trailing {
      SplitLinesCons(x, "");
      assert JoinLines([x], trailing) == x + "\n" + "";
    } else if x != [] {
      assert JoinLines([x], trailing) == x;
      SplitLinesSingle(x);
    } else {
      assert JoinLines([x], trailing) == [];
    }
  }

  /** Re-splitting reassembled lines that contain no boundaries gives them back
      (up to the final-empty-line cases of `Resplit`). */
  lemma {:induction false} SplitJoin(lines: seq<string>, trailing: bool)
    requires forall l | l in lines :: NoBreak(l)
    ensures SplitLines(JoinLines(lines, trailing)) == Resplit(lines, trailing)
    decreases |lines|
  {
    if lines == [] {
      if trailing {
        SplitLinesCons("", "");
        assert JoinLines(lines, trailing) == "" + "\n" + "";
      }
    } else if |lines| == 1 {
      assert lines[0] in lines;
      assert lines == [lines[0]];
      JoinLinesSingle(lines[0], trailing);
    } else {
      var x, rest := lines[0], lines[1..];
      assert x in lines;
      assert forall l | l in rest :: l in lines;
      assert lines == [x] + rest;
      JoinLinesCons(x, rest, trailing);
      SplitJoin(rest, trailing);
      ResplitCons(x, rest, trailing);
    }
  }

  lemma ResplitCons(x: string, rest: seq<string>, trailing: bool)
    requires rest != []
    ensures Resplit([x] + rest, trailing) == [x] + Resplit(rest, trailing)
  {
    var lines := [x] + rest;
    if !trailing && rest[|rest| - 1] == "" {
      assert lines[..|lines| - 1] == [x] + rest[..|rest| - 1];
    }
  }

  /** Whether reassembled lines end in a newline. */
  lemma {:induction false} JoinLinesEndsWithNewline(lines: seq<string>, trailing: bool)
    requires forall l | l in lines :: NoBreak(l)
    ensures EndsWith(JoinLines(lines, trailing), "\n") <==>
      trailing || (|lines| >= 2 && lines[|lines| - 1] == "")
  {
    if !trailing && lines != [] {
      var last := lines[|lines| - 1];
      assert last in lines;
      assert JoinLines(lines, trailing) == Join(lines, "\n");
      if |lines| == 1 {
        assert Join(lines, "\n") == "" + last;
        NewlineEndIff("", last);
      } else {
        var init := lines[..|lines| - 1];
        assert init + [last] == lines;
        JoinAppend(init, last, "\n");
        NewlineEndIff(Join(init, "\n") + "\n", last);
      }
    }
  }

  /** Text followed by a line without boundaries ends in `\n` exactly when
      the line is empty and the text does. */
  lemma NewlineEndIff(a: string, last: string)
    requires NoBreak(last)
    ensures EndsWith(a + last, "\n") <==> last == "" && EndsWith(a, "\n")
  {
    if last == "" {
      assert a + last == a;
    } else {
      assert (a + last)[|a + last| - 1] == last[|last| - 1];
    }
  }

  /** `Find` gives the first occurrence, and none when there is none. */
  lemma {:induction false} FindIsFirst(s: string, c: char)
    ensures match Find(s, c)
      case Some(k) => s[k] == c && forall j | 0 <= j < k :: s[j] != c
      case None => forall j | 0 <= j < |s| :: s[j] != c
    decreases |s|
  {
    if s != [] && s[0] != c {
      FindIsFirst(s[1..], c);
    }
  }

  lemma NoBreakConcat(a: string, b: string)
    requires NoBreak(a) && NoBreak(b)
    ensures NoBreak(a + b)
  {
    forall j | 0 <= j < |a + b|
      ensures !IsLineBreak((a + b)[j])
    {
      if j >= |a| {
        assert (a + b)[j] == b[j - |a|];
      }
    }
  }

  /** Stripping adds no line boundary. */
  lemma StripNoBreak(s: string)
    requires NoBreak(s)
    ensures NoBreak(Strip(s))
  {
    var l := LStrip(s);
    LStripIsSuffix(s);
    RStripIsPrefix(l);
    assert forall j | 0 <= j < |l| :: l[j] == s[|s| - |l| + j];
    assert forall j | 0 <= j < |Strip(s)| :: Strip(s)[j] == l[j];
  }

  /** `s.rfind(c)` as an option: the last index holding `c`. */
  function RFind(s: string, c: char): (r: Option<nat>)
    ensures r.Some? ==> r.value < |s| && s[r.value] == c
    ensures r.Some? ==> forall j | r.value < j < |s| :: s[j] != c
    ensures r.None? ==> forall j | 0 <= j < |s| :: s[j] != c
    decreases |s|
  {
    if s == [] then None
    else if s[|s| - 1] == c then Some(|s| - 1)
    else RFind(s[..|s| - 1], c)
  }

  /** `PurePath(name).stem` for a bare file name: the text before the last
      `.`, unless that dot is the first or the last character. */
  function PathStem(name: string): string
  {
    match RFind(name, '.')
    case Some(i) => if 0 < i < |name| - 1 then name[..i] else name
    case None => name
  }
}
