/** The bracket matcher `_find_closing_delimiter`: from an opening delimiter,
    find the index of its matching closer, honouring nesting and skipping the
    code point after every backslash. */
module Delimiter {
  import opened PyStr

  /** The scan loop read as a recursion over the position `i` and the current
      nesting `depth`. A backslash jumps two positions, so `i` may pass the end
      by one. */
  function ScanFrom(text: string, i: nat, depth: int, open: char, close: char): (r: Option<nat>)
    ensures r.Some? ==> i <= r.value < |text| && text[r.value] == close
    decreases |text| - i
  {
    if i >= |text| then None
    else if text[i] == '\\' then ScanFrom(text, i + 2, depth, open, close)
    else if text[i] == open then ScanFrom(text, i + 1, depth + 1, open, close)
    else if text[i] == close then
      if depth - 1 == 0 then Some(i) else ScanFrom(text, i + 1, depth - 1, open, close)
    else ScanFrom(text, i + 1, depth, open, close)
  }

  /** The scan passes over characters that are neither a backslash nor a
      delimiter without changing its depth. */
  lemma {:induction false} ScanPlain(text: string, i: nat, j: nat, depth: int, open: char, close: char)
    requires i <= j <= |text|
    requires forall m | i <= m < j :: text[m] != '\\' && text[m] != open && text[m] != close
    ensures ScanFrom(text, i, depth, open, close) == ScanFrom(text, j, depth, open, close)
    decreases j - i
  {
    if i < j {
      ScanPlain(text, i + 1, j, depth, open, close);
    }
  }

  /** The result of `_find_closing_delimiter(text, start, open, close)`. */
  function FindClose(text: string, start: nat, open: char, close: char): (r: Option<nat>)
    ensures r.Some? ==> start <= r.value < |text| && text[r.value] == close
    ensures r.Some? && start < |text| && text[start] == open && open != close ==> start < r.value
  {
    ScanFrom(text, start, 0, open, close)
  }

  /** The scanner loop itself. */
  method FindClosingDelimiter(text: string, start: nat, open: char, close: char) returns (r: Option<nat>)
    ensures r == FindClose(text, start, open, close)
  {
    var depth := 0;
    var i := start;
    var n := |text|;
    while i < n
      invariant ScanFrom(text, i, depth, open, close) == ScanFrom(text, start, 0, open, close)
      decreases n - i
    {
      var ch := text[i];
      if ch == '\\' {
        i := i + 2;
        continue;
      }
      if ch == open {
        depth := depth + 1;
      } else if ch == close {
        depth := depth - 1;
        if depth == 0 {
          return Some(i);
        }
      }
      i := i + 1;
    }
    return None;
  }

  // ---------------------------------------------------------------------------
  // An independent description of the match: escapes and nesting balance

  /** Position `j` is escaped: the code point before it is a backslash that is
      not itself escaped (counting from `start`). */
  ghost predicate Escaped(text: string, start: nat, j: nat)
    requires start <= j <= |text|
    decreases j - start
  {
    j > start && text[j - 1] == '\\' && !Escaped(text, start, j - 1)
  }

  /** How position `j` moves the nesting: +1 for an unescaped opener, -1 for an
      unescaped closer. */
  ghost function Delta(text: string, start: nat, j: nat, open: char, close: char): int
    requires start <= j < |text|
  {
    if Escaped(text, start, j) then 0
    else if text[j] == open then 1
    else if text[j] == close then -1
    else 0
  }

  /** Unescaped openers minus unescaped closers in `text[start..p]`. */
  ghost function Balance(text: string, start: nat, p: nat, open: char, close: char): int
    requires start <= p <= |text|
    decreases p - start
  {
    if p == start then 0
    else Balance(text, start, p - 1, open, close) + Delta(text, start, p - 1, open, close)
  }

  /** `j` is an unescaped closer after which the balance is back to zero. */
  ghost predicate ClosesAt(text: string, start: nat, j: nat, open: char, close: char)
  {
    && start <= j < |text|
    && !Escaped(text, start, j)
    && text[j] == close
    && Balance(text, start, j + 1, open, close) == 0
  }

  lemma {:induction false} ScanFromMatches(text: string, start: nat, i: nat, depth: int, open: char, close: char)
    requires open != close && open != '\\' && close != '\\'
    requires start <= i <= |text| + 1
    requires i <= |text| ==> !Escaped(text, start, i) && depth == Balance(text, start, i, open, close)
    requires forall j | start <= j < i :: !ClosesAt(text, start, j, open, close)
    ensures match ScanFrom(text, i, depth, open, close)
      case Some(k) =>
        ClosesAt(text, start, k, open, close) &&
        forall j | start <= j < k :: !ClosesAt(text, start, j, open, close)
      case None => forall j | start <= j < |text| :: !ClosesAt(text, start, j, open, close)
    decreases |text| - i
  {
    if i >= |text| {
    } else if text[i] == '\\' {
      assert Delta(text, start, i, open, close) == 0;
      if i + 1 < |text| {
        assert Escaped(text, start, i + 1);
        assert Delta(text, start, i + 1, open, close) == 0;
        assert i + 2 <= |text| ==> !Escaped(text, start, i + 2);
      }
      ScanFromMatches(text, start, i + 2, depth, open, close);
    } else {
      assert !Escaped(text, start, i + 1);
      if text[i] == open {
        ScanFromMatches(text, start, i + 1, depth + 1, open, close);
      } else if text[i] == close {
        if depth - 1 != 0 {
          ScanFromMatches(text, start, i + 1, depth - 1, open, close);
        }
      } else {
        ScanFromMatches(text, start, i + 1, depth, open, close);
      }
    }
  }

  /** The scanner returns exactly the first unescaped closer at which the
      count of unescaped openers minus closers, from `start`, reaches zero;
      it returns none when there is no such position. */
  lemma FindCloseIsFirstBalancedCloser(text: string, start: nat, open: char, close: char)
    requires start <= |text|
    requires open != close && open != '\\' && close != '\\'
    ensures match FindClose(text, start, open, close)
      case Some(k) =>
        ClosesAt(text, start, k, open, close) &&
        forall j | start <= j < k :: !ClosesAt(text, start, j, open, close)
      case None => forall j | start <= j < |text| :: !ClosesAt(text, start, j, open, close)
  {
    ScanFromMatches(text, start, start, 0, open, close);
  }

  /** An escaped closer does not end the span: `[a\]b]c` from index 0 matches at 5. */
  lemma EscapedCloserIsSkipped()
    ensures FindClose("[a\\]b]c", 0, '[', ']') == Some(5)
  {
  }
}
