/** Running out of tokens: the tokeniser can go on with a larger array, and a run without an array counts
    the tokens in advance. */
module JsmnRestart {
  import opened Basics
  import opened Jsmn
  import opened JsmnForest

  // ---------- more tokens ----------

  lemma StepWithMore(js: string, cap: nat, more: nat, p: Parser)
    requires Linkable(p) && !AtEnd(js, p.pos) && cap <= more && !Step(js, cap, p).NoMem?
    ensures Step(js, more, p) == Step(js, cap, p)
  {
  }

  /** Going on with a larger array after running out of tokens ends like one run with the larger array. */
  lemma {:induction false} Restart(js: string, cap: nat, more: nat, p: Parser)
    requires Linkable(p) && cap <= more
    ensures Linkable(Parse(js, cap, p).p)
    ensures var r := Parse(js, cap, p);
      if r.NoMem? then Parse(js, more, p) == Parse(js, more, r.p) else Parse(js, more, p) == r
    decreases |js| - p.pos
  {
    if !AtEnd(js, p.pos) {
      var r := Step(js, cap, p);
      if r.NoMem? {
        StepStays(js, cap, p);
      } else {
        StepWithMore(js, cap, more, p);
        if r.More? {
          StepAdvances(js, cap, p);
          Restart(js, cap, more, r.p);
        } else {
          StepStays(js, cap, p);
        }
      }
    }
  }

  // ---------- counting ----------

  datatype Count = Counted(n: nat) | CountInvalid | CountPartial

  /** One round without a token array: the new position, and how many tokens were counted. */
  datatype CountRound = Next(pos: nat, found: nat) | Stop(r: Count)

  function CountStep(js: string, pos: nat): CountRound
    requires !AtEnd(js, pos)
  {
    var c := js[pos];
    if c == '{' || c == '[' then Next(pos + 1, 1)
    else if c == '\"' then
      match StringEnd(js, pos + 1)
      case Ended(e) => Next(e + 1, 1)
      case BadString => Stop(CountInvalid)
      case NoEnd => Stop(CountPartial)
    else if c == '}' || c == ']' || Space(c) || c == ':' || c == ',' then Next(pos + 1, 0)
    else
      match PrimitiveEnd(js, pos)
      case Some(e) => Next(e, 1)
      case None => Stop(CountInvalid)
  }

  lemma CountAdvances(js: string, pos: nat)
    requires !AtEnd(js, pos) && CountStep(js, pos).Next?
    ensures pos < CountStep(js, pos).pos <= |js|
  {
  }

  /** jsmn_parse without a token array. */
  function CountTokens(js: string, pos: nat, count: nat): Count
    decreases |js| - pos
  {
    if AtEnd(js, pos) then Counted(count) else
      match CountStep(js, pos)
      case Stop(r) => r
      case Next(e, n) =>
        CountAdvances(js, pos);
        CountTokens(js, e, count + n)
  }

  /** A round counts what it would allocate. */
  lemma StepCounts(js: string, cap: nat, p: Parser)
    requires Linkable(p) && !AtEnd(js, p.pos)
    ensures var r, n := Step(js, cap, p), CountStep(js, p.pos);
      && (r.More? ==> n == Next(r.p.pos, |r.p.toks| - |p.toks|))
      && (r.NoMem? ==> n.Next? && n.found == 1)
  {
  }

  lemma {:induction false} CountGrows(js: string, pos: nat, count: nat)
    ensures CountTokens(js, pos, count).Counted? ==> CountTokens(js, pos, count).n >= count
    decreases |js| - pos
  {
    if !AtEnd(js, pos) && CountStep(js, pos).Next? {
      CountAdvances(js, pos);
      CountGrows(js, CountStep(js, pos).pos, count + CountStep(js, pos).found);
    }
  }

  /** The count is the number of tokens of every run that gets to its end, and no run with that many tokens
      runs out of them. */
  lemma {:induction false} CountMatches(js: string, cap: nat, p: Parser)
    requires Linkable(p)
    ensures var r, c := Parse(js, cap, p), CountTokens(js, p.pos, |p.toks|);
      && (r.Done? ==> c == Counted(|r.p.toks|))
      && (c.Counted? && c.n <= cap ==> !r.NoMem?)
    decreases |js| - p.pos
  {
    if !AtEnd(js, p.pos) {
      StepCounts(js, cap, p);
      var r := Step(js, cap, p);
      if r.More? {
        StepAdvances(js, cap, p);
        CountMatches(js, cap, r.p);
      } else if r.NoMem? {
        StepStays(js, cap, p);
        CountGrows(js, CountStep(js, p.pos).pos, |p.toks| + 1);
      }
    }
  }

  /** Counting first and tokenising with an array of that size never runs out of tokens, and finds as many. */
  lemma CountThenParse(js: string, n: nat)
    requires CountTokens(js, 0, 0) == Counted(n)
    ensures var r := Parse(js, n, INIT);
      !r.NoMem? && (r.Done? ==> |r.p.toks| == n)
  {
    CountMatches(js, n, INIT);
  }
}
