/** Which of up to three replies `process_file` keeps: the first one that
    parses with a known university and subject; failing that, the second
    reply if it parsed, else the last one that parsed. The replies are
    inputs here; the calls that produce them are not modelled. */
module AttemptSelection {
  import opened PyStr
  import opened Values
  import opened MetadataParser
  import opened MetadataFill

  /** How many replies the loop asks for at most (`max_redo + 1`). */
  const MaxAttempts: nat := 3

  /** One recorded attempt: the parse, if any, and whether a required field
      is still unknown. */
  datatype Attempt = Attempt(data: Option<map<string, Value>>, unknown: bool)

  /** A reply that is blank is not parsed at all. */
  function Parsed(resp: string): Option<map<string, Value>>
  {
    if Strip(resp) == "" then None else TryParseYamlBlock(resp)
  }

  /** Neither the university nor the subject is unknown. */
  predicate Known(d: map<string, Value>)
  {
    !IsUnknownField(Get(d, University)) && !IsUnknownField(Get(d, Subject))
  }

  function AttemptOf(resp: string): Attempt
  {
    match Parsed(resp)
    case None => Attempt(None, true)
    case Some(d) => Attempt(Some(d), !Known(d))
  }

  /** What an attempt records: the parse, and whether it failed or left a
      required field unknown. */
  lemma AttemptOfSpec(resp: string)
    ensures AttemptOf(resp).data == Parsed(resp)
    ensures AttemptOf(resp).unknown <==> Parsed(resp).None? || !Known(Parsed(resp).value)
  {
  }

  /** The first attempt from `i` on that parsed with both fields known. */
  function FirstKnown(atts: seq<Attempt>, i: nat): (r: Option<nat>)
    requires i <= |atts|
    ensures r.Some? ==> i <= r.value < |atts| && !atts[r.value].unknown
    ensures r.None? ==> forall j | i <= j < |atts| :: atts[j].unknown
    decreases |atts| - i
  {
    if i == |atts| then None
    else if !atts[i].unknown then Some(i)
    else FirstKnown(atts, i + 1)
  }

  /** The outcome: the data kept (none means the file fails) and how many
      replies were asked for. */
  datatype Selection = Selection(data: Option<map<string, Value>>, calls: nat)

  /** The choice among the three attempts the replies would give. */
  function SelectOver(atts: seq<Attempt>): Selection
    requires |atts| == MaxAttempts
  {
    match FirstKnown(atts, 0)
    case Some(i) => Selection(atts[i].data, i + 1)
    case None =>
      var kept := if atts[1].data.Some? then atts[1].data
                  else if atts[2].data.Some? then atts[2].data
                  else atts[0].data;
      Selection(kept, MaxAttempts)
  }

  /** The attempts a run of replies gives, in order. */
  function AttemptsOf(rs: seq<string>): (atts: seq<Attempt>)
    ensures |atts| == |rs|
  {
    if rs == [] then [] else AttemptsOf(rs[..|rs| - 1]) + [AttemptOf(rs[|rs| - 1])]
  }

  /** Three replies give their three attempts, in order. */
  lemma AttemptsOfThree(r1: string, r2: string, r3: string)
    ensures AttemptsOf([r1, r2, r3]) == [AttemptOf(r1), AttemptOf(r2), AttemptOf(r3)]
  {
    AttemptsOfLast([r1, r2, r3]);
    assert [r1, r2, r3][..2] == [r1, r2];
    AttemptsOfLast([r1, r2]);
    assert [r1, r2][..1] == [r1];
    AttemptsOfLast([r1]);
    assert [r1][..0] == [];
  }

  lemma AttemptsOfLast(rs: seq<string>)
    requires rs != []
    ensures AttemptsOf(rs) == AttemptsOf(rs[..|rs| - 1]) + [AttemptOf(rs[|rs| - 1])]
  {
  }

  /** The attempts of a prefix of the replies are a prefix of the attempts. */
  lemma {:induction false} AttemptsOfPrefix(rs: seq<string>, n: nat)
    requires n <= |rs|
    ensures AttemptsOf(rs[..n]) == AttemptsOf(rs)[..n]
    decreases |rs|
  {
    if n == |rs| {
      assert rs[..n] == rs;
    } else {
      var init := rs[..|rs| - 1];
      assert rs[..n] == init[..n];
      AttemptsOfPrefix(init, n);
      PrefixOfSnoc(AttemptsOf(init), AttemptOf(rs[|rs| - 1]), n);
    }
  }

  lemma PrefixOfSnoc<T>(a: seq<T>, x: T, n: nat)
    requires n <= |a|
    ensures (a + [x])[..n] == a[..n]
  {
  }

  /** One more reply adds its attempt at the end. */
  lemma AttemptsOfSnoc(rs: seq<string>, i: nat)
    requires i < |rs|
    ensures AttemptsOf(rs[..i + 1]) == AttemptsOf(rs[..i]) + [AttemptOf(rs[i])]
  {
    var p := rs[..i + 1];
    assert p[..i] == rs[..i];
    assert p[i] == rs[i];
  }

  function Select(r1: string, r2: string, r3: string): Selection
  {
    SelectOver(AttemptsOf([r1, r2, r3]))
  }

  /** One pass of the loop body: ask, parse, and judge the fields. */
  method TryReply(resp: string) returns (a: Attempt)
    ensures a == AttemptOf(resp)
  {
    if Strip(resp) == "" {
      return Attempt(None, true);
    }
    var data := ParseYamlFallback(resp);
    if data.None? {
      return Attempt(None, true);
    }
    var unknown := IsUnknownField(Get(data.value, University)) || IsUnknownField(Get(data.value, Subject));
    return Attempt(data, unknown);
  }

  /** The source's retry loop: ask for a reply, record the attempt, and stop
      at the first one with both fields known. */
  method RunAttempts(responses: seq<string>) returns (attempts: seq<Attempt>, stopped: bool)
    requires |responses| == MaxAttempts
    ensures 0 < |attempts| <= MaxAttempts
    ensures attempts == AttemptsOf(responses[..|attempts|])
    ensures forall j | 0 <= j < |attempts| - 1 :: attempts[j].unknown
    ensures stopped <==> !attempts[|attempts| - 1].unknown
    ensures !stopped ==> |attempts| == MaxAttempts
  {
    attempts := [];
    var i := 0;
    while i < MaxAttempts
      invariant 0 <= i <= MaxAttempts && |attempts| == i
      invariant attempts == AttemptsOf(responses[..i])
      invariant forall j | 0 <= j < i :: attempts[j].unknown
      decreases MaxAttempts - i
    {
      var a := TryReply(responses[i]);
      AttemptsOfSnoc(responses, i);
      attempts := attempts + [a];
      if !a.unknown {
        return attempts, true;
      }
      i := i + 1;
    }
    return attempts, false;
  }

  /** The retry loop, then the fallbacks over the recorded attempts; the
      number of calls is the number of attempts recorded. */
  method SelectAttempt(r1: string, r2: string, r3: string) returns (s: Selection)
    ensures s == Select(r1, r2, r3)
  {
    var responses := [r1, r2, r3];
    var attempts, stopped := RunAttempts(responses);
    var calls := |attempts|;
    AttemptsOfPrefix(responses, calls);
    if stopped {
      FirstKnownAfterPrefix(AttemptsOf(responses), attempts);
      return Selection(attempts[calls - 1].data, calls);
    }
    assert responses[..calls] == responses;
    var kept := Fallback(attempts);
    return Selection(kept, calls);
  }

  /** With every attempt short of the mark: the second parse, else the last
      one that parsed, scanning back from the end. */
  method Fallback(attempts: seq<Attempt>) returns (kept: Option<map<string, Value>>)
    requires |attempts| == MaxAttempts
    ensures kept == if attempts[1].data.Some? then attempts[1].data
                    else if attempts[2].data.Some? then attempts[2].data
                    else attempts[0].data
  {
    var second := attempts[1];
    if second.data.Some? {
      return second.data;
    }
    var k := |attempts|;
    while k > 0
      invariant 0 <= k <= |attempts|
      invariant forall j | k <= j < |attempts| :: attempts[j].data.None?
      decreases k
    {
      k := k - 1;
      if attempts[k].data.Some? {
        return attempts[k].data;
      }
    }
    return None;
  }

  /** A recorded prefix whose last attempt alone is known locates the first
      known attempt of the whole sequence. */
  lemma FirstKnownAfterPrefix(atts: seq<Attempt>, prefix: seq<Attempt>)
    requires 0 < |prefix| <= |atts| && prefix == atts[..|prefix|]
    requires !prefix[|prefix| - 1].unknown
    requires forall j | 0 <= j < |prefix| - 1 :: prefix[j].unknown
    ensures FirstKnown(atts, 0) == Some(|prefix| - 1)
  {
    FirstKnownFrom(atts, 0, |prefix| - 1);
  }

  lemma {:induction false} FirstKnownFrom(atts: seq<Attempt>, from: nat, i: nat)
    requires from <= i < |atts| && !atts[i].unknown
    requires forall j | from <= j < i :: atts[j].unknown
    ensures FirstKnown(atts, from) == Some(i)
    decreases i - from
  {
    if from < i {
      FirstKnownFrom(atts, from + 1, i);
    }
  }

  lemma {:induction false} FirstKnownIsFirst(atts: seq<Attempt>, from: nat, j: nat)
    requires from <= j < |atts| && !atts[j].unknown
    ensures FirstKnown(atts, from).Some? && FirstKnown(atts, from).value <= j
    decreases j - from
  {
    if from < j && atts[from].unknown {
      FirstKnownIsFirst(atts, from + 1, j);
    }
  }

  /** An attempt with both fields known wins: the earliest such attempt is
      kept, the loop stops right after it, and every earlier attempt fell
      short. */
  lemma SelectKnownWins(atts: seq<Attempt>, i: nat)
    requires |atts| == MaxAttempts && i < |atts| && !atts[i].unknown
    ensures var s := SelectOver(atts);
      && 1 <= s.calls <= i + 1
      && !atts[s.calls - 1].unknown
      && s.data == atts[s.calls - 1].data
      && forall j | 0 <= j < s.calls - 1 :: atts[j].unknown
  {
    FirstKnownIsFirst(atts, 0, i);
  }

  /** With no attempt fully known, all three replies are asked for and the
      second parse is kept, else the third, else the first. */
  lemma SelectNoneKnown(atts: seq<Attempt>)
    requires |atts| == MaxAttempts && forall j | 0 <= j < |atts| :: atts[j].unknown
    ensures SelectOver(atts).calls == MaxAttempts
    ensures SelectOver(atts).data ==
      if atts[1].data.Some? then atts[1].data
      else if atts[2].data.Some? then atts[2].data
      else atts[0].data
  {
    FirstKnownNone(atts, 0);
  }

  lemma {:induction false} FirstKnownNone(atts: seq<Attempt>, from: nat)
    requires from <= |atts| && forall j | from <= j < |atts| :: atts[j].unknown
    ensures FirstKnown(atts, from).None?
    decreases |atts| - from
  {
    if from < |atts| {
      FirstKnownNone(atts, from + 1);
    }
  }

  /** The kept data is one attempt's parse, and there is none exactly when
      no attempt parsed (a known attempt always carries a parse). */
  lemma SelectKeepsSomeParse(atts: seq<Attempt>)
    requires |atts| == MaxAttempts
    requires forall j | 0 <= j < |atts| :: !atts[j].unknown ==> atts[j].data.Some?
    ensures var s := SelectOver(atts);
      && (s.data.None? <==> forall j | 0 <= j < |atts| :: atts[j].data.None?)
      && (s.data.Some? ==> exists j | 0 <= j < |atts| :: s.data == atts[j].data)
  {
    match FirstKnown(atts, 0)
    case Some(i) =>
      assert SelectOver(atts).data == atts[i].data;
    case None =>
      var kept := SelectOver(atts).data;
      if atts[1].data.Some? {
        assert kept == atts[1].data;
      } else if atts[2].data.Some? {
        assert kept == atts[2].data;
      } else {
        assert kept == atts[0].data;
      }
  }

  /** Attempts built from replies satisfy the premise above. */
  lemma KnownAttemptParsed(rs: seq<string>)
    ensures forall j | 0 <= j < |rs| ::
      !AttemptsOf(rs)[j].unknown ==> AttemptsOf(rs)[j].data.Some?
  {
  }

  /** A reply that is known wins over every later reply: the attribution
      fields of the kept data are then known. */
  lemma KnownReplyWins(r1: string, r2: string, r3: string)
    requires Parsed(r1).Some? && Known(Parsed(r1).value)
    ensures Select(r1, r2, r3) == Selection(Parsed(r1), 1)
  {
    AttemptsOfThree(r1, r2, r3);
    AttemptOfSpec(r1);
  }
}
