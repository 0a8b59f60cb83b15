/** The editor's regular expressions (cmd/levee/find.c), on patterns as makepat encodes them:
    each token is a code, followed by its character or by a counted class; CLOSURE stands
    before the token it repeats.

    A way to match is given by the lengths of its closures' runs, first closure first.  What
    matches is defined over all ways; amatch is proved to find the one whose runs are greatest,
    earlier closures first. */
module Regex {
  import opened Options

  const EOL := '\n'
  const LEND := '$'
  const LSTART := '^'
  const LITCHAR := 'c'
  const ANY := '.'
  const CCL := '['
  const NCCL := '!'
  const CLOSURE := '*'
  const TOKENB := '<'
  const TOKENE := '>'
  const ARGSTART := '('
  const ARGEND := ')'
  const NARGS: nat := 9

  // ----- patterns -----

  predicate Consuming(c: char)
  {
    c == LITCHAR || c == ANY || c == CCL || c == NCCL
  }

  /** Is the first token of p all there? */
  predicate Fits(p: seq<char>)
  {
    && p != []
    && (p[0] == LITCHAR ==> 2 <= |p|)
    && (p[0] == CCL || p[0] == NCCL ==> 2 <= |p| && 2 + p[1] as int <= |p|)
  }

  /** What is left of p after its first token. */
  function Rest(p: seq<char>): (r: seq<char>)
    requires Fits(p)
    ensures |r| < |p|
  {
    if p[0] == LITCHAR then p[2..]
    else if p[0] == CCL || p[0] == NCCL then p[2 + p[1] as int..]
    else p[1..]
  }

  /** A pattern, from inside an argument or not: closures repeat any token but the brackets of
      an argument, and arguments open and close in turn. */
  predicate Pattern(p: seq<char>, inarg: bool)
    decreases |p|
  {
    if p == [] then !inarg
    else if p[0] == CLOSURE then
      Fits(p[1..]) && p[1] != ARGSTART && p[1] != ARGEND && Pattern(Rest(p[1..]), inarg)
    else
      && Fits(p)
      && (p[0] == ARGSTART ==> !inarg)
      && (p[0] == ARGEND ==> inarg)
      && Pattern(Rest(p), if p[0] == ARGSTART then true else if p[0] == ARGEND then false else inarg)
  }

  /** How many arguments are closed in p. */
  function Args(p: seq<char>, inarg: bool): nat
    requires Pattern(p, inarg)
    decreases |p|
  {
    if p == [] then 0
    else if p[0] == CLOSURE then Args(Rest(p[1..]), inarg)
    else if p[0] == ARGSTART then Args(Rest(p), true)
    else if p[0] == ARGEND then 1 + Args(Rest(p), false)
    else Args(Rest(p), inarg)
  }

  lemma {:induction false} OpenArg(p: seq<char>)
    requires Pattern(p, true)
    ensures Args(p, true) >= 1
    decreases |p|
  {
    if p[0] == CLOSURE {
      OpenArg(Rest(p[1..]));
    } else if p[0] != ARGEND {
      OpenArg(Rest(p));
    }
  }

  // ----- what a pattern means -----

  /** The text, the last position that may be consumed, and whether case is ignored. */
  datatype Env = Env(core: seq<char>, end: nat, ignorecase: bool)

  predicate EnvOk(e: Env)
  {
    e.end + 1 < |e.core|
  }

  function Upper(c: char): char
  {
    if 'a' <= c <= 'z' then c - 'a' + 'A' else c
  }

  predicate Alnum(c: char)
  {
    'a' <= c <= 'z' || 'A' <= c <= 'Z' || '0' <= c <= '9'
  }

  predicate InClass(p: seq<char>, c: char)
    requires Fits(p) && (p[0] == CCL || p[0] == NCCL)
  {
    c in p[2..2 + p[1] as int]
  }

  /** Does the consuming token at the head of p take the character at i? */
  predicate Takes(e: Env, p: seq<char>, i: nat)
    requires EnvOk(e) && Fits(p)
  {
    i <= e.end &&
    var c := e.core[i];
    if p[0] == LITCHAR then c == p[1] || (e.ignorecase && Upper(c) == Upper(p[1]))
    else if p[0] == ANY then c != EOL
    else if p[0] == CCL then InClass(p, c)
    else p[0] == NCCL && !InClass(p, c)
  }

  /** Does the token at the head of p, which consumes nothing, hold at i? */
  predicate Stands(e: Env, p: seq<char>, i: nat)
    requires EnvOk(e) && Fits(p) && i <= e.end + 1
  {
    if p[0] == LEND then e.core[i] == EOL
    else if p[0] == LSTART then i == 0 || e.core[i - 1] == EOL
    else if p[0] == TOKENB then i == 0 || !Alnum(e.core[i - 1])
    else if p[0] == TOKENE then !Alnum(e.core[i])
    else true
  }

  /** The token at the head of p takes the n characters from i on; one that consumes nothing has
      only the run of length 0. */
  ghost predicate Run(e: Env, p: seq<char>, i: nat, n: nat)
    requires EnvOk(e) && Fits(p)
  {
    i + n <= e.end + 1 && forall k: nat :: i <= k < i + n ==> Takes(e, p, k)
  }

  function Inside(p: seq<char>, inarg: bool): bool
    requires p != []
  {
    if p[0] == ARGSTART then true else if p[0] == ARGEND then false else inarg
  }

  /** Where pattern p, from i, ends with these run lengths; None if it does not match with them. */
  ghost function Match(e: Env, p: seq<char>, inarg: bool, i: nat, runs: seq<nat>): (r: Option<nat>)
    requires EnvOk(e) && Pattern(p, inarg) && i <= e.end + 1
    ensures r.Some? ==> i <= r.value <= e.end + 1
    decreases |p|
  {
    if p == [] then
      if runs == [] then Some(i) else None
    else if p[0] == CLOSURE then
      if runs != [] && Run(e, p[1..], i, runs[0]) then Match(e, Rest(p[1..]), inarg, i + runs[0], runs[1..]) else None
    else if Consuming(p[0]) then
      if Takes(e, p, i) then Match(e, Rest(p), inarg, i + 1, runs) else None
    else
      if Stands(e, p, i) then Match(e, Rest(p), Inside(p, inarg), i, runs) else None
  }

  ghost predicate MatchesAt(e: Env, p: seq<char>, i: nat)
    requires EnvOk(e) && Pattern(p, false) && i <= e.end + 1
  {
    exists runs :: Match(e, p, false, i, runs).Some?
  }

  /** The text of one argument. */
  datatype Cap = Cap(start: nat, size: nat)

  /** The arguments of a match, in order; `open` is where an argument that is open at i began. */
  ghost function Caps(e: Env, p: seq<char>, inarg: bool, i: nat, runs: seq<nat>, open: nat): (r: seq<Cap>)
    requires EnvOk(e) && Pattern(p, inarg) && open <= i <= e.end + 1 && Match(e, p, inarg, i, runs).Some?
    ensures |r| == Args(p, inarg)
    decreases |p|
  {
    if p == [] then []
    else if p[0] == CLOSURE then Caps(e, Rest(p[1..]), inarg, i + runs[0], runs[1..], open)
    else if Consuming(p[0]) then Caps(e, Rest(p), inarg, i + 1, runs, open)
    else if p[0] == ARGSTART then Caps(e, Rest(p), true, i, runs, i)
    else if p[0] == ARGEND then [Cap(open, i - open)] + Caps(e, Rest(p), false, i, runs, open)
    else Caps(e, Rest(p), inarg, i, runs, open)
  }

  /** Runs a are at least as great as runs b, the first difference deciding. */
  ghost predicate AtLeast(a: seq<nat>, b: seq<nat>)
  {
    b == [] || (a != [] && (a[0] > b[0] || (a[0] == b[0] && AtLeast(a[1..], b[1..]))))
  }

  ghost predicate Greatest(e: Env, p: seq<char>, inarg: bool, i: nat, runs: seq<nat>)
    requires EnvOk(e) && Pattern(p, inarg) && i <= e.end + 1
  {
    forall r :: Match(e, p, inarg, i, r).Some? ==> AtLeast(runs, r)
  }

  ghost predicate NoMatch(e: Env, p: seq<char>, inarg: bool, i: nat)
    requires EnvOk(e) && Pattern(p, inarg) && i <= e.end + 1
  {
    forall r :: Match(e, p, inarg, i, r).None?
  }

  /** There is no match from any position lo..hi. */
  ghost predicate NoneIn(e: Env, p: seq<char>, inarg: bool, lo: nat, hi: nat)
    requires EnvOk(e) && Pattern(p, inarg) && hi <= e.end + 1
  {
    forall i: nat, r :: lo <= i <= hi ==> Match(e, p, inarg, i, r).None?
  }

  // ----- registers -----

  /** RE_start and RE_size hold these arguments, from number sarg on. */
  ghost predicate Recorded(starts: seq<int>, sizes: seq<int>, sarg: nat, caps: seq<Cap>)
  {
    && |starts| == |sizes| == NARGS && sarg + |caps| <= NARGS
    && forall k: nat :: k < |caps| ==> starts[sarg + k] == caps[k].start && sizes[sarg + k] == caps[k].size
  }

  /** Arguments before number sarg, and the start of an open one, are as they were. */
  ghost predicate Kept(starts0: seq<int>, sizes0: seq<int>, starts: seq<int>, sizes: seq<int>, sarg: nat, inarg: bool)
  {
    && |starts0| == |sizes0| == |starts| == |sizes| == NARGS
    && (forall k: nat :: k < sarg && k < NARGS ==> starts[k] == starts0[k] && sizes[k] == sizes0[k])
    && (inarg && sarg < NARGS ==> starts[sarg] == starts0[sarg])
  }

  /** The end of the line that position o is on. */
  function LineEnd(core: seq<char>, bufmax: nat, o: nat): (e: nat)
    requires o < bufmax < |core|
    ensures o <= e < bufmax && (core[e] == EOL || e == bufmax - 1)
    ensures forall k: nat :: o <= k < e ==> core[k] != EOL
    decreases bufmax - o
  {
    if core[o] == EOL || o == bufmax - 1 then o else LineEnd(core, bufmax, o + 1)
  }

  lemma {:induction false} SameLine(core: seq<char>, bufmax: nat, o: nat, k: nat)
    requires o < bufmax < |core| && o <= k <= LineEnd(core, bufmax, o)
    ensures LineEnd(core, bufmax, k) == LineEnd(core, bufmax, o)
    decreases k - o
  {
    if o < k {
      SameLine(core, bufmax, o + 1, k);
    }
  }

  lemma LineInside(core: seq<char>, bufmax: nat, o: nat, k: nat)
    requires o <= k < bufmax < |core|
    ensures LineEnd(core, bufmax, o) <= LineEnd(core, bufmax, k)
    ensures k <= LineEnd(core, bufmax, o) ==> LineEnd(core, bufmax, o) == LineEnd(core, bufmax, k)
  {
    if k <= LineEnd(core, bufmax, o) {
      SameLine(core, bufmax, o, k);
    }
  }

  /** Does p match at i, within the line? */
  ghost predicate Hit(core: seq<char>, bufmax: nat, ignorecase: bool, p: seq<char>, i: nat)
    requires i < bufmax < |core| && Pattern(p, false)
  {
    MatchesAt(Env(core, LineEnd(core, bufmax, i), ignorecase), p, i)
  }

  /** The match at i that was found: the greatest way, its end in lastp, its arguments in the registers. */
  ghost predicate Found(e: Env, p: seq<char>, i: nat, runs: seq<nat>, lastp: nat, arg: nat, starts: seq<int>,
                        sizes: seq<int>)
    requires EnvOk(e) && Pattern(p, false) && i <= e.end + 1
  {
    && Match(e, p, false, i, runs) == Some(lastp) && Greatest(e, p, false, i, runs)
    && arg == Args(p, false) && Recorded(starts, sizes, 0, Caps(e, p, false, i, runs, 0))
  }

  /** The registers on the way from p to pat: these arguments have closed and are recorded. */
  ghost predicate Filled(p: seq<char>, inarg: bool, pat: seq<char>, inside: bool, from: nat, done: seq<Cap>,
                         sarg: nat, arg: nat,
                         starts0: seq<int>, sizes0: seq<int>, starts: seq<int>, sizes: seq<int>)
    requires Pattern(p, inarg) && Pattern(pat, inside)
  {
    && arg == sarg + |done| && Args(p, inarg) == |done| + Args(pat, inside) && sarg + Args(p, inarg) <= NARGS
    && Recorded(starts, sizes, sarg, done)
    && Kept(starts0, sizes0, starts, sizes, sarg, inarg)
    && (inside && arg < NARGS ==> starts[arg] == from)
    && (inarg && done == [] ==> inside)
  }

  /** The answer is right: the greatest way and where it ends, or there is no way. */
  ghost predicate Outcome(e: Env, p: seq<char>, inarg: bool, i: nat, open: nat, ok: bool, runs: seq<nat>, lastp: nat)
    requires EnvOk(e) && Pattern(p, inarg) && open <= i <= e.end + 1
  {
    if ok then Match(e, p, inarg, i, runs) == Some(lastp) && Greatest(e, p, inarg, i, runs)
    else NoMatch(e, p, inarg, i)
  }

  /** The registers are right: they hold the arguments of that way; on failure arg is set back. */
  ghost predicate Registers(e: Env, p: seq<char>, inarg: bool, i: nat, open: nat, ok: bool, runs: seq<nat>, sarg: nat,
                            arg: nat, starts: seq<int>, sizes: seq<int>)
    requires EnvOk(e) && Pattern(p, inarg) && open <= i <= e.end + 1
  {
    if ok then
      arg == sarg + Args(p, inarg) && Match(e, p, inarg, i, runs).Some?
        && Recorded(starts, sizes, sarg, Caps(e, p, inarg, i, runs, open))
    else arg == sarg
  }

  /** What amatch promises: a right answer, right registers, and the earlier registers kept. */
  ghost predicate Result(e: Env, p: seq<char>, inarg: bool, i: nat, open: nat, ok: bool, runs: seq<nat>, lastp: nat,
                         sarg: nat, arg: nat, starts0: seq<int>, sizes0: seq<int>, starts: seq<int>, sizes: seq<int>)
    requires EnvOk(e) && Pattern(p, inarg) && open <= i <= e.end + 1
  {
    && Outcome(e, p, inarg, i, open, ok, runs, lastp)
    && Registers(e, p, inarg, i, open, ok, runs, sarg, arg, starts, sizes)
    && Kept(starts0, sizes0, starts, sizes, sarg, inarg)
  }

  /** The two ways of going on from p at start and from pat at cur are the same; in between these
      arguments have closed. */
  ghost predicate SameWay(e: Env, p: seq<char>, inarg: bool, start: nat, open: nat, pat: seq<char>, inside: bool,
                          cur: nat, from: nat, done: seq<Cap>, r: seq<nat>)
    requires EnvOk(e) && Pattern(p, inarg) && open <= start <= e.end + 1 && Pattern(pat, inside)
      && from <= cur <= e.end + 1
  {
    && Match(e, p, inarg, start, r) == Match(e, pat, inside, cur, r)
    && (Match(e, p, inarg, start, r).Some? ==> Caps(e, p, inarg, start, r, open) == done + Caps(e, pat, inside, cur,
      r, from))
  }

  ghost predicate Progress(e: Env, p: seq<char>, inarg: bool, start: nat, open: nat, pat: seq<char>, inside: bool,
                           cur: nat, from: nat, done: seq<Cap>)
    requires EnvOk(e) && Pattern(p, inarg) && open <= start <= e.end + 1 && Pattern(pat, inside)
      && from <= cur <= e.end + 1
  {
    forall r :: SameWay(e, p, inarg, start, open, pat, inside, cur, from, done, r)
  }

  lemma ProgressFound(e: Env, p: seq<char>, inarg: bool, start: nat, open: nat, pat: seq<char>, inside: bool,
                      cur: nat, from: nat, done: seq<Cap>, runs: seq<nat>)
    requires EnvOk(e) && Pattern(p, inarg) && open <= start <= e.end + 1 && Pattern(pat, inside)
      && from <= cur <= e.end + 1
    requires Progress(e, p, inarg, start, open, pat, inside, cur, from, done)
    requires Match(e, pat, inside, cur, runs).Some? && Greatest(e, pat, inside, cur, runs)
    ensures Match(e, p, inarg, start, runs) == Match(e, pat, inside, cur, runs)
    ensures Greatest(e, p, inarg, start, runs)
    ensures Caps(e, p, inarg, start, runs, open) == done + Caps(e, pat, inside, cur, runs, from)
  {
    assert SameWay(e, p, inarg, start, open, pat, inside, cur, from, done, runs);
    forall r | Match(e, p, inarg, start, r).Some? ensures AtLeast(runs, r) {
      assert SameWay(e, p, inarg, start, open, pat, inside, cur, from, done, r);
    }
  }

  predicate Passes(e: Env, pat: seq<char>, cur: nat)
    requires EnvOk(e) && Fits(pat) && cur <= e.end + 1
  {
    if Consuming(pat[0]) then Takes(e, pat, cur) else Stands(e, pat, cur)
  }

  lemma ProgressFails(e: Env, p: seq<char>, inarg: bool, start: nat, open: nat, pat: seq<char>, inside: bool,
                      cur: nat, from: nat, done: seq<Cap>)
    requires EnvOk(e) && Pattern(p, inarg) && open <= start <= e.end + 1 && Pattern(pat, inside)
      && from <= cur <= e.end + 1
    requires Progress(e, p, inarg, start, open, pat, inside, cur, from, done)
    requires NoMatch(e, pat, inside, cur) || (pat != [] && pat[0] != CLOSURE && !Passes(e, pat, cur))
    ensures NoMatch(e, p, inarg, start)
  {
    forall r ensures Match(e, p, inarg, start, r).None? {
      assert SameWay(e, p, inarg, start, open, pat, inside, cur, from, done, r);
    }
  }

  lemma OutcomeBoth(e: Env, p: seq<char>, inarg: bool, start: nat, open: nat, pat: seq<char>, inside: bool, cur: nat,
                    from: nat, done: seq<Cap>, ok: bool, runs: seq<nat>, lastp: nat)
    requires EnvOk(e) && Pattern(p, inarg) && open <= start <= e.end + 1 && Pattern(pat, inside)
      && from <= cur <= e.end + 1
    requires Progress(e, p, inarg, start, open, pat, inside, cur, from, done)
    requires Outcome(e, pat, inside, cur, from, ok, runs, lastp)
    ensures Outcome(e, p, inarg, start, open, ok, runs, lastp)
  {
    if ok {
      ProgressFound(e, p, inarg, start, open, pat, inside, cur, from, done, runs);
    } else {
      ProgressFails(e, p, inarg, start, open, pat, inside, cur, from, done);
    }
  }

  /** Arguments recorded before a closure stay when those of the rest are recorded after them. */
  lemma RecordedBoth(starts: seq<int>, sizes: seq<int>, starts': seq<int>, sizes': seq<int>, sarg: nat,
                     done: seq<Cap>, inside: bool, more: seq<Cap>)
    requires Recorded(starts, sizes, sarg, done) && Recorded(starts', sizes', sarg + |done|, more)
    requires Kept(starts, sizes, starts', sizes', sarg + |done|, inside)
    ensures Recorded(starts', sizes', sarg, done + more)
  {
    forall k: nat | k < |done + more|
      ensures starts'[sarg + k] == (done + more)[k].start && sizes'[sarg + k] == (done + more)[k].size
    {
      if k >= |done| {
        assert (done + more)[k] == more[k - |done|];
        assert starts'[sarg + |done| + (k - |done|)] == more[k - |done|].start;
      }
    }
  }

  lemma RegistersBoth(e: Env, p: seq<char>, inarg: bool, start: nat, open: nat, pat: seq<char>, inside: bool,
                      cur: nat, from: nat, done: seq<Cap>, ok: bool, runs: seq<nat>,
                      sarg: nat, arg: nat, starts: seq<int>, sizes: seq<int>, starts': seq<int>, sizes': seq<int>)
    requires EnvOk(e) && Pattern(p, inarg) && open <= start <= e.end + 1 && Pattern(pat, inside)
      && from <= cur <= e.end + 1
    requires Progress(e, p, inarg, start, open, pat, inside, cur, from, done)
      && Args(p, inarg) == |done| + Args(pat, inside)
    requires Recorded(starts, sizes, sarg, done) && Kept(starts, sizes, starts', sizes', sarg + |done|, inside)
    requires Registers(e, pat, inside, cur, from, ok, runs, sarg + |done|, arg, starts', sizes')
    ensures ok ==> Registers(e, p, inarg, start, open, ok, runs, sarg, arg, starts', sizes')
  {
    if ok {
      assert SameWay(e, p, inarg, start, open, pat, inside, cur, from, done, runs);
      RecordedBoth(starts, sizes, starts', sizes', sarg, done, inside, Caps(e, pat, inside, cur, runs, from));
    }
  }

  lemma KeptBoth(starts0: seq<int>, sizes0: seq<int>, starts1: seq<int>, sizes1: seq<int>, starts: seq<int>,
                 sizes: seq<int>, sarg: nat, n: nat, inarg: bool, inside: bool)
    requires Kept(starts0, sizes0, starts1, sizes1, sarg, inarg)
      && Kept(starts1, sizes1, starts, sizes, sarg + n, inside)
    requires inarg && n == 0 ==> inside
    ensures Kept(starts0, sizes0, starts, sizes, sarg, inarg)
  {
  }

  /** A result for what is left of the pattern is one for the whole. */
  lemma ResultLater(e: Env, p: seq<char>, inarg: bool, start: nat, open: nat, pat: seq<char>, inside: bool, cur: nat,
                    from: nat, done: seq<Cap>, ok: bool, runs: seq<nat>, lastp: nat,
                    sarg: nat, arg: nat, starts0: seq<int>, sizes0: seq<int>, starts1: seq<int>, sizes1: seq<int>,
                    starts: seq<int>, sizes: seq<int>)
    requires EnvOk(e) && Pattern(p, inarg) && open <= start <= e.end + 1 && Pattern(pat, inside)
      && from <= cur <= e.end + 1
    requires Progress(e, p, inarg, start, open, pat, inside, cur, from, done)
    requires Filled(p, inarg, pat, inside, from, done, sarg, sarg + |done|, starts0, sizes0, starts1, sizes1)
    requires Result(e, pat, inside, cur, from, ok, runs, lastp, sarg + |done|, arg, starts1, sizes1, starts, sizes)
    ensures Result(e, p, inarg, start, open, ok, runs, lastp, sarg, if ok then arg else sarg, starts0, sizes0, starts,
      sizes)
  {
    KeptBoth(starts0, sizes0, starts1, sizes1, starts, sizes, sarg, |done|, inarg, inside);
    RegistersBoth(e, p, inarg, start, open, pat, inside, cur, from, done, ok, runs, sarg, arg, starts1, sizes1,
      starts, sizes);
    OutcomeBoth(e, p, inarg, start, open, pat, inside, cur, from, done, ok, runs, lastp);
  }

  /** The result when no closure is left: a token that fails, or the end of the pattern. */
  lemma ResultNow(e: Env, p: seq<char>, inarg: bool, start: nat, open: nat, pat: seq<char>, inside: bool, cur: nat,
                  from: nat, done: seq<Cap>, ok: bool, lastp: nat,
                  sarg: nat, arg: nat, starts0: seq<int>, sizes0: seq<int>, starts: seq<int>, sizes: seq<int>)
    requires EnvOk(e) && Pattern(p, inarg) && open <= start <= e.end + 1 && Pattern(pat, inside)
      && from <= cur <= e.end + 1
    requires Progress(e, p, inarg, start, open, pat, inside, cur, from, done)
    requires Kept(starts0, sizes0, starts, sizes, sarg, inarg)
    requires if ok then pat == [] && lastp == cur && Filled(p, inarg, pat, inside, from, done, sarg, arg, starts0,
      sizes0, starts, sizes)
             else pat != [] && pat[0] != CLOSURE && !Passes(e, pat, cur)
    ensures Result(e, p, inarg, start, open, ok, [], lastp, sarg, if ok then arg else sarg, starts0, sizes0, starts,
      sizes)
  {
    if ok {
      ProgressFound(e, p, inarg, start, open, pat, inside, cur, from, done, []);
      assert done + [] == done;
    } else {
      ProgressFails(e, p, inarg, start, open, pat, inside, cur, from, done);
    }
  }

  /** The argument that the token at the head of pat closes, if it does. */
  ghost function Closed(pat: seq<char>, i: nat, from: nat): seq<Cap>
    requires pat != [] && from <= i
  {
    if pat[0] == ARGEND then [Cap(from, i - from)] else []
  }

  function After(pat: seq<char>, cur: nat): nat
    requires pat != []
  {
    if Consuming(pat[0]) then cur + 1 else cur
  }

  /** Does the first loop of a closure of the token at the head of p go on for ever from i? */
  predicate Spins(e: Env, p: seq<char>, i: nat)
    requires EnvOk(e) && Fits(p) && i <= e.end + 1
  {
    !Consuming(p[0]) && i <= e.end && Stands(e, p, i)
  }

  /** It does after a run of length n: longer runs have been tried in vain. */
  ghost predicate HangsAfter(e: Env, p: seq<char>, inarg: bool, i: nat, n: nat)
    requires EnvOk(e) && Pattern(p, inarg) && i <= e.end + 1 && p != [] && p[0] == CLOSURE
    decreases |p|, 0
  {
    && Run(e, p[1..], i, n) && Hangs(e, Rest(p[1..]), inarg, i + n)
    && forall m: nat :: n < m && Run(e, p[1..], i, m) ==> NoMatch(e, Rest(p[1..]), inarg, i + m)
  }

  /** Does the search for p from i come to such a closure?  It tries the longest run first, and no
      more when the rest has matched. */
  ghost predicate Hangs(e: Env, p: seq<char>, inarg: bool, i: nat)
    requires EnvOk(e) && Pattern(p, inarg) && i <= e.end + 1
    decreases |p|
  {
    if p == [] then false
    else if p[0] == CLOSURE then Spins(e, p[1..], i) || exists n: nat :: HangsAfter(e, p, inarg, i, n)
    else Passes(e, p, i) && Hangs(e, Rest(p), Inside(p, inarg), After(p, i))
  }

  lemma OneToken(e: Env, pat: seq<char>, inside: bool, cur: nat, from: nat, r: seq<nat>)
    requires EnvOk(e) && Pattern(pat, inside) && from <= cur <= e.end + 1
    requires pat != [] && pat[0] != CLOSURE && Passes(e, pat, cur)
    ensures SameWay(e, pat, inside, cur, from, Rest(pat), Inside(pat, inside), After(pat, cur),
                    if pat[0] == ARGSTART then cur else from, Closed(pat, cur, from), r)
  {
  }

  lemma SameTwice(e: Env, p: seq<char>, inarg: bool, start: nat, open: nat, pat: seq<char>, inside: bool, cur: nat,
                  from: nat, done: seq<Cap>,
                  pat': seq<char>, inside': bool, cur': nat, from': nat, more: seq<Cap>, r: seq<nat>)
    requires EnvOk(e) && Pattern(p, inarg) && open <= start <= e.end + 1 && Pattern(pat, inside)
      && from <= cur <= e.end + 1
    requires Pattern(pat', inside') && from' <= cur' <= e.end + 1
    requires SameWay(e, p, inarg, start, open, pat, inside, cur, from, done, r)
    requires SameWay(e, pat, inside, cur, from, pat', inside', cur', from', more, r)
    ensures SameWay(e, p, inarg, start, open, pat', inside', cur', from', done + more, r)
  {
    if Match(e, p, inarg, start, r).Some? {
      var last := Caps(e, pat', inside', cur', r, from');
      assert done + (more + last) == done + more + last;
    }
  }

  lemma TokenDone(e: Env, p: seq<char>, inarg: bool, start: nat, open: nat, pat: seq<char>, inside: bool, cur: nat,
                  from: nat, done: seq<Cap>)
    requires EnvOk(e) && Pattern(p, inarg) && open <= start <= e.end + 1 && Pattern(pat, inside)
      && from <= cur <= e.end + 1
    requires Progress(e, p, inarg, start, open, pat, inside, cur, from, done)
    requires pat != [] && pat[0] != CLOSURE && Passes(e, pat, cur)
    ensures Progress(e, p, inarg, start, open, Rest(pat), Inside(pat, inside), After(pat, cur),
                     if pat[0] == ARGSTART then cur else from, done + Closed(pat, cur, from))
  {
    var cur', from', done' := After(pat, cur), if pat[0] == ARGSTART then cur else from, done + Closed(pat, cur, from);
    forall r ensures SameWay(e, p, inarg, start, open, Rest(pat), Inside(pat, inside), cur', from', done', r) {
      OneToken(e, pat, inside, cur, from, r);
      assert SameWay(e, p, inarg, start, open, pat, inside, cur, from, done, r);
      SameTwice(e, p, inarg, start, open, pat, inside, cur, from, done, Rest(pat), Inside(pat, inside), cur', from',
        Closed(pat, cur, from), r);
    }
  }

  lemma ProgressStart(e: Env, p: seq<char>, inarg: bool, start: nat, open: nat)
    requires EnvOk(e) && Pattern(p, inarg) && open <= start <= e.end + 1
    ensures Progress(e, p, inarg, start, open, p, inarg, start, open, [])
  {
    forall r ensures SameWay(e, p, inarg, start, open, p, inarg, start, open, [], r) {
      if Match(e, p, inarg, start, r).Some? {
        assert Caps(e, p, inarg, start, r, open) == [] + Caps(e, p, inarg, start, r, open);
      }
    }
  }

  /** The registers after a token. */
  lemma TokenRecorded(starts: seq<int>, sizes: seq<int>, starts': seq<int>, sizes': seq<int>, sarg: nat,
                      done: seq<Cap>, pat: seq<char>, cur: nat, from: nat)
    requires pat != [] && from <= cur && Recorded(starts, sizes, sarg, done)
    requires pat[0] == ARGSTART || pat[0] == ARGEND ==> sarg + |done| < NARGS
    requires pat[0] == ARGEND ==> starts[sarg + |done|] == from
    requires starts' == if pat[0] == ARGSTART then starts[sarg + |done| := cur] else starts
    requires sizes' == if pat[0] == ARGEND then sizes[sarg + |done| := cur - from] else sizes
    ensures Recorded(starts', sizes', sarg, done + Closed(pat, cur, from))
  {
  }

  lemma NoGreater(e: Env, p: seq<char>, inarg: bool, i: nat, longest: nat, n: nat, runs: seq<nat>, r: seq<nat>)
    requires EnvOk(e) && Pattern(p, inarg) && p != [] && p[0] == CLOSURE && i + longest <= e.end + 1 && n <= longest
    requires forall k: nat :: Run(e, p[1..], i, k) <==> k <= longest
    requires Greatest(e, Rest(p[1..]), inarg, i + n, runs) && NoneIn(e, Rest(p[1..]), inarg, i + n + 1, i + longest)
    requires Match(e, p, inarg, i, r).Some?
    ensures AtLeast([n] + runs, r)
  {
    var m, at := r[0], i + r[0];
    assert Run(e, p[1..], i, m);
    assert Match(e, Rest(p[1..]), inarg, at, r[1..]).Some?;
    assert ([n] + runs)[1..] == runs;
  }

  /** The run n is the longest after which the rest matches, so [n] + runs is the greatest way. */
  lemma ClosureFound(e: Env, p: seq<char>, inarg: bool, i: nat, open: nat, longest: nat, n: nat, runs: seq<nat>)
    requires EnvOk(e) && Pattern(p, inarg) && p != [] && p[0] == CLOSURE && open <= i && i + longest <= e.end + 1
      && n <= longest
    requires forall k: nat :: Run(e, p[1..], i, k) <==> k <= longest
    requires Match(e, Rest(p[1..]), inarg, i + n, runs).Some? && Greatest(e, Rest(p[1..]), inarg, i + n, runs)
    requires NoneIn(e, Rest(p[1..]), inarg, i + n + 1, i + longest)
    ensures Match(e, p, inarg, i, [n] + runs) == Match(e, Rest(p[1..]), inarg, i + n, runs)
    ensures Caps(e, p, inarg, i, [n] + runs, open) == Caps(e, Rest(p[1..]), inarg, i + n, runs, open)
    ensures Greatest(e, p, inarg, i, [n] + runs)
  {
    assert Run(e, p[1..], i, n);
    assert ([n] + runs)[1..] == runs;
    forall r | Match(e, p, inarg, i, r).Some? ensures AtLeast([n] + runs, r) {
      NoGreater(e, p, inarg, i, longest, n, runs, r);
    }
  }

  lemma ClosureFails(e: Env, p: seq<char>, inarg: bool, i: nat, longest: nat)
    requires EnvOk(e) && Pattern(p, inarg) && p != [] && p[0] == CLOSURE && i + longest <= e.end + 1
    requires forall k: nat :: Run(e, p[1..], i, k) <==> k <= longest
    requires NoneIn(e, Rest(p[1..]), inarg, i, i + longest)
    ensures NoMatch(e, p, inarg, i)
  {
    forall r ensures Match(e, p, inarg, i, r).None? {
    }
  }

  /** The search after ever shorter runs came to run n, and it hung there. */
  lemma ClosureHangs(e: Env, p: seq<char>, inarg: bool, i: nat, longest: nat, n: nat)
    requires EnvOk(e) && Pattern(p, inarg) && p != [] && p[0] == CLOSURE && i + longest <= e.end + 1 && n <= longest
    requires forall k: nat :: Run(e, p[1..], i, k) <==> k <= longest
    requires Hangs(e, Rest(p[1..]), inarg, i + n) && NoneIn(e, Rest(p[1..]), inarg, i + n + 1, i + longest)
    ensures Hangs(e, p, inarg, i)
  {
    assert Run(e, p[1..], i, n);
    forall m: nat | n < m && Run(e, p[1..], i, m) ensures NoMatch(e, Rest(p[1..]), inarg, i + m) {
      assert m <= longest;
    }
    assert HangsAfter(e, p, inarg, i, n);
  }

  ghost predicate NoHangIn(e: Env, p: seq<char>, inarg: bool, lo: nat, hi: nat)
    requires EnvOk(e) && Pattern(p, inarg) && hi <= e.end + 1
  {
    forall i: nat :: lo <= i <= hi ==> !Hangs(e, p, inarg, i)
  }

  /** It came to run n and found a match there, or to the end, and hung nowhere. */
  lemma ClosureReturns(e: Env, p: seq<char>, inarg: bool, i: nat, longest: nat, n: nat, ok: bool)
    requires EnvOk(e) && Pattern(p, inarg) && p != [] && p[0] == CLOSURE && i + longest <= e.end + 1 && n <= longest
    requires forall k: nat :: Run(e, p[1..], i, k) <==> k <= longest
    requires !Spins(e, p[1..], i) && NoHangIn(e, Rest(p[1..]), inarg, i + n, i + longest)
    requires if ok then !NoMatch(e, Rest(p[1..]), inarg, i + n) else n == 0
    ensures !Hangs(e, p, inarg, i)
  {
    forall k: nat ensures !HangsAfter(e, p, inarg, i, k) {
      if k < n {
        assert Run(e, p[1..], i, n);
      } else if k <= longest {
        assert !Hangs(e, Rest(p[1..]), inarg, i + k);
      }
    }
  }

  lemma OneDown(e: Env, p: seq<char>, inarg: bool, s: nat, hi: nat)
    requires EnvOk(e) && Pattern(p, inarg) && s <= hi <= e.end + 1
    requires NoneIn(e, p, inarg, s + 1, hi) && NoHangIn(e, p, inarg, s + 1, hi)
    requires NoMatch(e, p, inarg, s) && !Hangs(e, p, inarg, s)
    ensures NoneIn(e, p, inarg, s, hi) && NoHangIn(e, p, inarg, s, hi)
  {
  }

  lemma OneHang(e: Env, p: seq<char>, inarg: bool, s: nat, hi: nat, hang: bool)
    requires EnvOk(e) && Pattern(p, inarg) && s <= hi <= e.end + 1 && NoHangIn(e, p, inarg, s + 1, hi)
    requires hang <==> Hangs(e, p, inarg, s)
    ensures !hang ==> NoHangIn(e, p, inarg, s, hi)
  {
  }

  // ----- closures of tokens that consume nothing -----

  /** Where a closure's first loop stands after k turns; None once it has ended. */
  ghost function AfterTurns(e: Env, p: seq<char>, cp: nat, k: nat): (r: Option<nat>)
    requires EnvOk(e) && Fits(p) && cp <= e.end + 1
    ensures r.Some? ==> r.value <= e.end + 1
  {
    if k == 0 then Some(cp)
    else
      var before := AfterTurns(e, p, cp, k - 1);
      if before.Some? && before.value <= e.end && Passes(e, p, before.value) then Some(After(p, before.value)) else None
  }

  lemma {:induction false} Stays(e: Env, p: seq<char>, cp: nat, k: nat)
    requires EnvOk(e) && Fits(p) && cp <= e.end && !Consuming(p[0]) && Stands(e, p, cp)
    ensures AfterTurns(e, p, cp, k) == Some(cp)
  {
    if k > 0 {
      Stays(e, p, cp, k - 1);
    }
  }

  lemma {:induction false} Advances(e: Env, p: seq<char>, cp: nat, k: nat)
    requires EnvOk(e) && Fits(p) && cp <= e.end && Consuming(p[0])
    ensures AfterTurns(e, p, cp, k).Some? ==> AfterTurns(e, p, cp, k) == Some(cp + k)
  {
    if k > 0 {
      Advances(e, p, cp, k - 1);
    }
  }

  /** makepat lets any token but ^, $ and * be closed.  The loop of such a closure ends exactly
      when its token consumes a character or does not hold where the loop starts. */
  lemma ClosureEnds(e: Env, p: seq<char>, cp: nat)
    requires EnvOk(e) && Fits(p) && cp <= e.end
    ensures (exists k: nat :: AfterTurns(e, p, cp, k).None?) <==> !Spins(e, p, cp)
  {
    if Consuming(p[0]) {
      var k := e.end + 2 - cp;
      Advances(e, p, cp, k);
      assert AfterTurns(e, p, cp, k).None?;
    } else if !Stands(e, p, cp) {
      assert AfterTurns(e, p, cp, 1).None?;
    } else {
      forall k: nat ensures AfterTurns(e, p, cp, k).Some? {
        Stays(e, p, cp, k);
      }
    }
  }

  /** The closure of "<" at the start of the text is one that does not; so amatch does not return. */
  lemma WordStartHangs(e: Env, k: nat)
    requires EnvOk(e)
    ensures AfterTurns(e, [TOKENB], 0, k) == Some(0)
    ensures Pattern([CLOSURE, TOKENB], false) && Hangs(e, [CLOSURE, TOKENB], false, 0)
  {
    Stays(e, [TOKENB], 0, k);
    assert [CLOSURE, TOKENB][1..] == [TOKENB] && [TOKENB][1..] == [];
  }

  ghost predicate NoMatches(e: Env, p: seq<char>, lo: nat, hi: nat)
    requires EnvOk(e) && Pattern(p, false) && hi <= e.end + 2
  {
    forall i: nat :: lo <= i < hi ==> !MatchesAt(e, p, i)
  }

  ghost predicate NeverHangs(e: Env, p: seq<char>, lo: nat, hi: nat)
    requires EnvOk(e) && Pattern(p, false) && hi <= e.end + 2
  {
    forall i: nat :: lo <= i < hi ==> !Hangs(e, p, false, i)
  }

  /** The search from `start` on comes to position i, and hangs there. */
  ghost predicate HangsFirst(e: Env, p: seq<char>, start: nat, i: nat)
    requires EnvOk(e) && Pattern(p, false) && i <= e.end + 1
  {
    Hangs(e, p, false, i) && NoMatches(e, p, start, i)
  }

  lemma NeverFirst(e: Env, p: seq<char>, start: nat, r: nat, i: nat)
    requires EnvOk(e) && Pattern(p, false) && start <= r <= e.end + 1 && start <= i <= e.end
    requires NeverHangs(e, p, start, r) && (r <= e.end ==> MatchesAt(e, p, r) && !Hangs(e, p, false, r))
    ensures !HangsFirst(e, p, start, i)
  {
  }

  /** Does the search for p at i, within the line, hang? */
  ghost predicate HangsAt(core: seq<char>, bufmax: nat, ignorecase: bool, p: seq<char>, i: nat)
    requires i < bufmax < |core| && Pattern(p, false)
  {
    Hangs(Env(core, LineEnd(core, bufmax, i), ignorecase), p, false, i)
  }

  ghost predicate NoHits(core: seq<char>, bufmax: nat, ignorecase: bool, p: seq<char>, lo: nat, hi: nat)
    requires hi <= bufmax < |core| && Pattern(p, false)
  {
    forall i: nat :: lo <= i < hi ==> !Hit(core, bufmax, ignorecase, p, i)
  }

  ghost predicate NoHangs(core: seq<char>, bufmax: nat, ignorecase: bool, p: seq<char>, lo: nat, hi: nat)
    requires hi <= bufmax < |core| && Pattern(p, false)
  {
    forall i: nat :: lo <= i < hi ==> !HangsAt(core, bufmax, ignorecase, p, i)
  }

  /** The search within lines from `start` on comes to position i, and hangs there. */
  ghost predicate HangsOnLine(core: seq<char>, bufmax: nat, ignorecase: bool, p: seq<char>, start: nat, i: nat)
    requires i < bufmax < |core| && Pattern(p, false)
  {
    HangsAt(core, bufmax, ignorecase, p, i) && NoHits(core, bufmax, ignorecase, p, start, i)
  }

  /** What REmatch says of a line, for the text as a whole. */
  lemma LineClear(core: seq<char>, bufmax: nat, ignorecase: bool, p: seq<char>, pos: nat, ep: nat, r: nat)
    requires pos < bufmax < |core| && Pattern(p, false) && ep == LineEnd(core, bufmax, pos) && r <= ep + 1
    requires NoMatches(Env(core, ep, ignorecase), p, pos, r) && NeverHangs(Env(core, ep, ignorecase), p, pos, r)
    ensures NoHits(core, bufmax, ignorecase, p, pos, r) && NoHangs(core, bufmax, ignorecase, p, pos, r)
  {
    forall i: nat | pos <= i < r
      ensures !Hit(core, bufmax, ignorecase, p, i) && !HangsAt(core, bufmax, ignorecase, p, i)
    {
      SameLine(core, bufmax, pos, i);
      assert !MatchesAt(Env(core, ep, ignorecase), p, i) && !Hangs(Env(core, ep, ignorecase), p, false, i);
    }
  }

  lemma LineHang(core: seq<char>, bufmax: nat, ignorecase: bool, p: seq<char>, pos: nat, ep: nat, at: nat)
    requires pos < bufmax < |core| && Pattern(p, false) && ep == LineEnd(core, bufmax, pos) && pos <= at <= ep
    requires HangsFirst(Env(core, ep, ignorecase), p, pos, at)
    ensures HangsOnLine(core, bufmax, ignorecase, p, pos, at)
  {
    SameLine(core, bufmax, pos, at);
    forall i: nat | pos <= i < at ensures !Hit(core, bufmax, ignorecase, p, i) {
      SameLine(core, bufmax, pos, i);
    }
  }

  lemma LineHit(core: seq<char>, bufmax: nat, ignorecase: bool, p: seq<char>, pos: nat, ep: nat, r: nat)
    requires pos < bufmax < |core| && Pattern(p, false) && ep == LineEnd(core, bufmax, pos) && pos <= r <= ep
    requires MatchesAt(Env(core, ep, ignorecase), p, r) && !Hangs(Env(core, ep, ignorecase), p, false, r)
    ensures LineEnd(core, bufmax, r) == ep
    ensures Hit(core, bufmax, ignorecase, p, r) && !HangsAt(core, bufmax, ignorecase, p, r)
  {
    SameLine(core, bufmax, pos, r);
  }

  /** No hang anywhere up to a match is no hang at all. */
  lemma NeverOnLine(core: seq<char>, bufmax: nat, ignorecase: bool, p: seq<char>, start: nat, r: nat, i: nat)
    requires i < bufmax < |core| && r <= bufmax && Pattern(p, false) && start <= i
    requires NoHangs(core, bufmax, ignorecase, p, start, r) && start <= r
    requires i >= r ==> r < bufmax && Hit(core, bufmax, ignorecase, p, r) && !HangsAt(core, bufmax, ignorecase, p, r)
    ensures !HangsOnLine(core, bufmax, ignorecase, p, start, i)
  {
  }

  // ----- the matcher -----

  class Matcher {
    var core: seq<char>
    var bufmax: nat
    var ignorecase: bool
    const reStart: array<int>
    const reSize: array<int>
    var arg: nat
    var lastp: nat

    ghost predicate Valid()
      reads this
    {
      reStart.Length == reSize.Length == NARGS && reStart != reSize && bufmax < |core|
    }

    function TheEnv(end: nat): Env
      reads this`core, this`ignorecase
    {
      Env(core, end, ignorecase)
    }

    constructor (text: seq<char>, spare: seq<char>, ic: bool)
      requires spare != []
      ensures Valid() && core == text + spare && bufmax == |text| && ignorecase == ic && arg == 0
    {
      core, bufmax, ignorecase := text + spare, |text|, ic;
      reStart, reSize := new int[NARGS](_ => -1), new int[NARGS](_ => -1);
      arg, lastp := 0, 0;
    }

    /** locate: is the character at i in the class at the head of p? */
    method Locate(p: seq<char>, i: nat) returns (found: bool)
      requires Fits(p) && (p[0] == CCL || p[0] == NCCL) && i < |core|
      ensures found <==> InClass(p, core[i])
    {
      var count := p[1] as int;
      var k := 0;
      while k < count
        invariant 0 <= k <= count
        invariant core[i] !in p[2..2 + k]
      {
        if p[2 + k] == core[i] {
          assert p[2..2 + count][k] == core[i];
          return true;
        }
        assert p[2..2 + (k + 1)] == p[2..2 + k] + [p[2 + k]];
        k := k + 1;
      }
      return false;
    }

    /** omatch: one token at cp. */
    method Omatch(p: seq<char>, cp: nat, end: nat) returns (ok: bool, cp': nat)
      requires Valid() && end + 1 < |core| && Fits(p) && cp <= end + 1
      requires p[0] == ARGSTART || p[0] == ARGEND ==> arg < NARGS
      modifies this`arg, reStart, reSize
      ensures Consuming(p[0]) ==> (ok <==> Takes(TheEnv(end), p, cp)) && cp' == (if ok then cp + 1 else cp)
      ensures !Consuming(p[0]) ==> (ok <==> Stands(TheEnv(end), p, cp)) && cp' == cp
      ensures arg == old(arg) + (if p[0] == ARGEND then 1 else 0)
      ensures reStart[..] == if p[0] == ARGSTART then old(reStart[..])[old(arg) := cp] else old(reStart[..])
      ensures reSize[..] == if p[0] == ARGEND then old(reSize[..])[old(arg) := cp - old(reStart[arg])]
        else old(reSize[..])
    {
      cp' := cp;
      var flag;
      if p[0] == LEND {
        return core[cp] == EOL, cp;
      } else if p[0] == LSTART {
        return cp == 0 || core[cp - 1] == EOL, cp;
      } else if p[0] == TOKENB {
        return cp == 0 || !Alnum(core[cp - 1]), cp;
      } else if p[0] == TOKENE {
        return !Alnum(core[cp]), cp;
      } else if p[0] == LITCHAR {
        if ignorecase {
          flag := Upper(core[cp]) == Upper(p[1]);
        } else {
          flag := core[cp] == p[1];
        }
      } else if p[0] == ANY {
        flag := core[cp] != EOL;
      } else if p[0] == CCL {
        flag := Locate(p, cp);
      } else if p[0] == NCCL {
        var found := Locate(p, cp);
        flag := !found;
      } else if p[0] == ARGSTART {
        reStart[arg] := cp;
        return true, cp;
      } else if p[0] == ARGEND {
        reSize[arg] := cp - reStart[arg];
        arg := arg + 1;
        return true, cp;
      } else {
        return true, cp;
      }
      if cp <= end && flag {
        return true, cp + 1;
      }
      return false, cp;
    }

    /** The first loop of a closure: the longest run, or no end. */
    method Longest(p: seq<char>, start: nat, end: nat) returns (hang: bool, s: nat)
      requires Valid() && end + 1 < |core| && Fits(p) && p[0] != ARGSTART && p[0] != ARGEND && start <= end + 1
      modifies this`arg, reStart, reSize
      ensures hang <==> Spins(TheEnv(end), p, start)
      ensures start <= s <= end + 1
      ensures !hang ==> forall n: nat :: Run(TheEnv(end), p, start, n) <==> n <= s - start
      ensures arg == old(arg) && reStart[..] == old(reStart[..]) && reSize[..] == old(reSize[..])
    {
      s := start;
      var more := true;
      while more && s <= end
        invariant start <= s <= end + 1
        invariant forall k: nat :: start <= k < s ==> Takes(TheEnv(end), p, k)
        invariant !Consuming(p[0]) ==> s == start && (!more ==> !Stands(TheEnv(end), p, s))
        invariant !more ==> s <= end && !Takes(TheEnv(end), p, s)
        invariant arg == old(arg) && reStart[..] == old(reStart[..]) && reSize[..] == old(reSize[..])
        decreases more, end + 1 - s
      {
        var s0 := s;
        more, s := Omatch(p, s, end);
        if more && s == s0 {   // and so it goes on
          return true, s;
        }
      }
      return false, s;
    }

    /** The other branch of amatch: one token, and what it does to the registers. */
    method MatchToken(pat: seq<char>, ghost inside: bool, cur: nat, end: nat, ghost from: nat, ghost p: seq<char>,
                      ghost inarg: bool,
                      ghost done: seq<Cap>, ghost sarg: nat, ghost starts0: seq<int>, ghost sizes0: seq<int>)
                      returns (ok: bool, cur': nat)
      requires Valid() && end + 1 < |core| && Pattern(p, inarg) && Pattern(pat, inside) && from <= cur <= end + 1
      requires pat != [] && pat[0] != CLOSURE
      requires Filled(p, inarg, pat, inside, from, done, sarg, arg, starts0, sizes0, reStart[..], reSize[..])
      modifies this`arg, reStart, reSize
      ensures ok <==> Passes(TheEnv(end), pat, cur)
      ensures ok ==> cur' == After(pat, cur)
      ensures ok ==> Filled(p, inarg, Rest(pat), Inside(pat, inside), if pat[0] == ARGSTART then cur' else from,
        done + Closed(pat, cur, from),
                            sarg, arg, starts0, sizes0, reStart[..], reSize[..])
      ensures Kept(starts0, sizes0, reStart[..], reSize[..], sarg, inarg)
    {
      ghost var starts1, sizes1 := reStart[..], reSize[..];
      if Inside(pat, inside) {
        OpenArg(Rest(pat));
      }
      ok, cur' := Omatch(pat, cur, end);
      TokenRecorded(starts1, sizes1, reStart[..], reSize[..], sarg, done, pat, cur, from);
    }

    /** The second loop of a closure: the rest of the pattern after ever shorter runs. */
    method Backtrack(p: seq<char>, ghost inarg: bool, oldstart: nat, start: nat, end: nat, ghost open: nat)
      returns (hang: bool, ok: bool, ghost n: nat, ghost runs: seq<nat>)
      requires Valid() && end + 1 < |core| && Pattern(p, inarg) && open <= oldstart <= start <= end + 1
      requires arg + Args(p, inarg) <= NARGS
      requires inarg && arg < NARGS ==> reStart[arg] == open
      modifies this`arg, this`lastp, reStart, reSize
      ensures oldstart + n <= start
      ensures hang ==>
        Hangs(TheEnv(end), p, inarg, oldstart + n) && NoneIn(TheEnv(end), p, inarg, oldstart + n + 1, start)
      ensures !hang ==> NoHangIn(TheEnv(end), p, inarg, oldstart + n, start)
      ensures !hang && !ok ==>
        && n == 0 && arg == old(arg) && NoneIn(TheEnv(end), p, inarg, oldstart, start)
        && Kept(old(reStart[..]), old(reSize[..]), reStart[..], reSize[..], old(arg), inarg)
      ensures !hang && ok ==>
        && NoneIn(TheEnv(end), p, inarg, oldstart + n + 1, start)
        && Result(TheEnv(end), p, inarg, oldstart + n, open, ok, runs, lastp, old(arg), arg, old(reStart[..]),
          old(reSize[..]), reStart[..], reSize[..])
      decreases |p|, 2
    {
      var s: int := start;
      ghost var e := TheEnv(end);
      ghost var starts0, sizes0 := reStart[..], reSize[..];
      n, runs := 0, [];
      while s >= oldstart
        invariant oldstart - 1 <= s <= start && arg == old(arg) && e == TheEnv(end)
        invariant Kept(starts0, sizes0, reStart[..], reSize[..], arg, inarg)
        invariant NoneIn(e, p, inarg, s + 1, start) && NoHangIn(e, p, inarg, s + 1, start)
        decreases s
      {
        hang, ok, runs := Amatch(p, inarg, s, end, open);
        if hang || ok {
          n := s - oldstart;
          OneHang(e, p, inarg, s, start, hang);
          return;
        }
        OneDown(e, p, inarg, s, start);
        s := s - 1;
      }
      hang, ok := false, false;
    }

    /** The two loops of a closure. */
    method TryRuns(p: seq<char>, ghost inarg: bool, start: nat, end: nat, ghost open: nat)
      returns (hang: bool, ok: bool, ghost runs: seq<nat>)
      requires Valid() && end + 1 < |core| && Pattern(p, inarg) && p != [] && p[0] == CLOSURE
        && open <= start <= end + 1
      requires arg + Args(p, inarg) <= NARGS
      requires inarg && arg < NARGS ==> reStart[arg] == open
      modifies this`arg, this`lastp, reStart, reSize
      ensures hang <==> Hangs(TheEnv(end), p, inarg, start)
      ensures !hang ==> Result(TheEnv(end), p, inarg, start, open, ok, runs, lastp, old(arg), arg, old(reStart[..]),
        old(reSize[..]), reStart[..], reSize[..])
      decreases |p|, 0, 0
    {
      ghost var e := TheEnv(end);
      var s;
      hang, s := Longest(p[1..], start, end);
      if hang {
        return true, false, [];
      }
      ghost var n;
      ghost var longest: nat := s - start;
      hang, ok, n, runs := Backtrack(Rest(p[1..]), inarg, start, s, end, open);
      if hang {
        ClosureHangs(e, p, inarg, start, longest, n);
        return;
      }
      ClosureReturns(e, p, inarg, start, longest, n, ok);
      if ok {
        ClosureFound(e, p, inarg, start, open, longest, n, runs);
        runs := [n] + runs;
      } else {
        ClosureFails(e, p, inarg, start, longest);
      }
    }

    /** The closure branch of amatch, which decides the match of the whole pattern p. */
    method MatchClosure(pat: seq<char>, ghost inside: bool, cur: nat, end: nat, ghost from: nat, ghost p: seq<char>,
                        ghost inarg: bool, ghost start: nat,
                        ghost open: nat, ghost done: seq<Cap>, sarg: nat, ghost starts0: seq<int>,
                        ghost sizes0: seq<int>)
      returns (hang: bool, ok: bool, ghost runs: seq<nat>)
      requires Valid() && end + 1 < |core| && Pattern(p, inarg) && open <= start <= end + 1
      requires Pattern(pat, inside) && from <= cur <= end + 1 && pat != [] && pat[0] == CLOSURE
      requires Progress(TheEnv(end), p, inarg, start, open, pat, inside, cur, from, done)
      requires Filled(p, inarg, pat, inside, from, done, sarg, arg, starts0, sizes0, reStart[..], reSize[..])
      modifies this`arg, this`lastp, reStart, reSize
      ensures hang <==> Hangs(TheEnv(end), pat, inside, cur)
      ensures !hang ==> Result(TheEnv(end), p, inarg, start, open, ok, runs, lastp, sarg, arg, starts0, sizes0,
        reStart[..], reSize[..])
      decreases |pat|, 0, 1
    {
      ghost var starts1, sizes1 := reStart[..], reSize[..];
      ghost var e := TheEnv(end);
      hang, ok, runs := TryRuns(pat, inside, cur, end, from);
      if hang {
        return;
      }
      ResultLater(e, p, inarg, start, open, pat, inside, cur, from, done, ok, runs, lastp, sarg, arg, starts0, sizes0,
        starts1, sizes1, reStart[..], reSize[..]);
      if !ok {
        arg := sarg;
      }
    }

    /** amatch.  It does not return exactly if it comes to a closure that goes on for ever.  `runs`
        is the way that was found; `open` is where the open argument began. */
    method Amatch(p: seq<char>, ghost inarg: bool, start: nat, end: nat, ghost open: nat)
      returns (hang: bool, ok: bool, ghost runs: seq<nat>)
      requires Valid() && end + 1 < |core| && Pattern(p, inarg) && open <= start <= end + 1
      requires arg + Args(p, inarg) <= NARGS
      requires inarg && arg < NARGS ==> reStart[arg] == open
      modifies this`arg, this`lastp, reStart, reSize
      ensures hang <==> Hangs(TheEnv(end), p, inarg, start)
      ensures !hang ==> Result(TheEnv(end), p, inarg, start, open, ok, runs, lastp, old(arg), arg, old(reStart[..]),
        old(reSize[..]), reStart[..], reSize[..])
      decreases |p|, 1
    {
      ghost var e := TheEnv(end);
      var sarg := arg;
      ghost var starts0, sizes0 := reStart[..], reSize[..];
      var pat, cur: nat := p, start;
      ghost var inside, from: nat, done: seq<Cap> := inarg, open, [];
      ProgressStart(e, p, inarg, start, open);
      while pat != []
        invariant |pat| <= |p| && Pattern(pat, inside) && from <= cur <= end + 1 && e == TheEnv(end)
        invariant Progress(e, p, inarg, start, open, pat, inside, cur, from, done)
        invariant Hangs(e, p, inarg, start) <==> Hangs(e, pat, inside, cur)
        invariant Filled(p, inarg, pat, inside, from, done, sarg, arg, starts0, sizes0, reStart[..], reSize[..])
        decreases |pat|
      {
        if pat[0] == CLOSURE {
          hang, ok, runs := MatchClosure(pat, inside, cur, end, from, p, inarg, start, open, done, sarg, starts0,
            sizes0);
          return;
        }
        ghost var cur0 := cur;
        var one;
        one, cur := MatchToken(pat, inside, cur, end, from, p, inarg, done, sarg, starts0, sizes0);
        if !one {
          ResultNow(e, p, inarg, start, open, pat, inside, cur0, from, done, false, lastp, sarg, arg, starts0, sizes0,
            reStart[..], reSize[..]);
          arg := sarg;
          return false, false, [];
        }
        TokenDone(e, p, inarg, start, open, pat, inside, cur0, from, done);
        done := done + Closed(pat, cur0, from);
        from := if pat[0] == ARGSTART then cur else from;
        inside := Inside(pat, inside);
        pat := Rest(pat);
      }
      lastp := cur;
      ResultNow(e, p, inarg, start, open, pat, inside, cur, from, done, true, lastp, sarg, arg, starts0, sizes0,
        reStart[..], reSize[..]);
      return false, true, [];
    }

    /** REmatch: the first position from start to end with a match, or the one after end; or no
        end, if the search hangs at a position before that. */
    method REmatch(p: seq<char>, start: nat, end: nat) returns (hang: bool, r: int, ghost runs: seq<nat>)
      requires Valid() && end + 1 < |core| && Pattern(p, false) && Args(p, false) <= NARGS
      modifies this`arg, this`lastp, reStart, reSize
      ensures hang <==> exists i: nat :: start <= i <= end && HangsFirst(TheEnv(end), p, start, i)
      ensures p == [] ==> r == -1
      ensures p != [] && !hang ==> start <= r && (if start <= end then r <= end + 1 else r == start)
      ensures p != [] && !hang && start <= end ==>
        NoMatches(TheEnv(end), p, start, r) && NeverHangs(TheEnv(end), p, start, r)
      ensures p != [] && !hang && r <= end ==>
        && MatchesAt(TheEnv(end), p, r) && !Hangs(TheEnv(end), p, false, r)
        && Found(TheEnv(end), p, r, runs, lastp, arg, reStart[..], reSize[..])
    {
      runs := [];
      if p == [] {
        return false, -1, runs;
      }
      arg := 0;
      r := start;
      if start > end {
        return false, r, runs;
      }
      ghost var e := TheEnv(end);
      while r <= end
        invariant start <= r <= end + 1 && arg == 0 && e == TheEnv(end)
        invariant NoMatches(e, p, start, r) && NeverHangs(e, p, start, r)
      {
        var ok;
        hang, ok, runs := Amatch(p, false, r, end, 0);
        if hang {
          assert HangsFirst(e, p, start, r);
          return;
        }
        if ok {
          assert MatchesAt(e, p, r);
          break;
        }
        r := r + 1;
      }
      forall i: nat | start <= i <= end ensures !HangsFirst(e, p, start, i) {
        NeverFirst(e, p, start, r, i);
      }
      hang := false;
    }

    /** fseekeol, with the scan it calls. */
    method Fseekeol(origin: nat) returns (r: nat)
      requires Valid() && origin < bufmax
      ensures r == LineEnd(core, bufmax, origin)
    {
      r := origin;
      while r < bufmax - 1 && core[r] != EOL
        invariant origin <= r < bufmax && LineEnd(core, bufmax, r) == LineEnd(core, bufmax, origin)
      {
        r := r + 1;
      }
    }

    /** One line of findfwd, from pos on; `at` is where it hangs. */
    method OnLine(p: seq<char>, pos: nat) returns (hang: bool, r: int, ep: nat, ghost runs: seq<nat>, ghost at: nat)
      requires Valid() && pos < bufmax && Pattern(p, false) && Args(p, false) <= NARGS
      modifies this`arg, this`lastp, reStart, reSize
      ensures ep == LineEnd(core, bufmax, pos)
      ensures hang ==> pos <= at <= ep && HangsOnLine(core, bufmax, ignorecase, p, pos, at)
      ensures p == [] ==> !hang && r == -1
      ensures p != [] && !hang ==>
        && pos <= r <= ep + 1
        && NoHits(core, bufmax, ignorecase, p, pos, r) && NoHangs(core, bufmax, ignorecase, p, pos, r)
      ensures p != [] && !hang && r <= ep ==>
        && Hit(core, bufmax, ignorecase, p, r) && !HangsAt(core, bufmax, ignorecase, p, r)
        && Found(TheEnv(LineEnd(core, bufmax, r)), p, r, runs, lastp, arg, reStart[..], reSize[..])
    {
      at := pos;
      ep := Fseekeol(pos);
      ghost var e := TheEnv(ep);
      hang, r, runs := REmatch(p, pos, ep);
      if hang {
        at :| pos <= at <= ep && HangsFirst(e, p, pos, at);
        LineHang(core, bufmax, ignorecase, p, pos, ep, at);
      } else if p != [] {
        LineClear(core, bufmax, ignorecase, p, pos, ep, r);
        if r <= ep {
          LineHit(core, bufmax, ignorecase, p, pos, ep, r);
        }
      }
    }

    /** findfwd: the first match on the lines that start before endp, each match within its line;
        or no end, if the search hangs at a position before that. */
    method Findfwd(p: seq<char>, start: nat, endp: nat) returns (hang: bool, r: int, ghost runs: seq<nat>)
      requires Valid() && endp <= bufmax && Pattern(p, false) && Args(p, false) <= NARGS
      modifies this`arg, this`lastp, reStart, reSize
      ensures hang <==> start < endp && exists i: nat ::
        start <= i <= LineEnd(core, bufmax, endp - 1) && HangsOnLine(core, bufmax, ignorecase, p, start, i)
      ensures p == [] || start >= endp ==> r == -1
      ensures p != [] && start < endp && !hang ==>
        var last := LineEnd(core, bufmax, endp - 1);
        && (r == -1 ==> NoHits(core, bufmax, ignorecase, p, start, last + 1))
        && (r != -1 ==>
            && start <= r <= last && Hit(core, bufmax, ignorecase, p, r)
            && NoHits(core, bufmax, ignorecase, p, start, r)
            && Found(TheEnv(LineEnd(core, bufmax, r)), p, r, runs, lastp, arg, reStart[..], reSize[..]))
    {
      runs, r := [], -1;
      if p == [] || start >= endp {
        return false, -1, runs;
      }
      ghost var last := LineEnd(core, bufmax, endp - 1);
      var pos := start;
      while pos < endp
        invariant start <= pos <= last + 1 && (pos >= endp ==> pos == last + 1)
        invariant NoHits(core, bufmax, ignorecase, p, start, pos) && NoHangs(core, bufmax, ignorecase, p, start, pos)
      {
        LineInside(core, bufmax, pos, endp - 1);
        ghost var at;
        var ep;
        hang, r, ep, runs, at := OnLine(p, pos);
        if hang {
          assert HangsOnLine(core, bufmax, ignorecase, p, start, at);
          return;
        }
        if r <= ep {
          forall i: nat | start <= i <= last ensures !HangsOnLine(core, bufmax, ignorecase, p, start, i) {
            NeverOnLine(core, bufmax, ignorecase, p, start, r, i);
          }
          return;
        }
        pos := r;
      }
      forall i: nat | start <= i <= last ensures !HangsOnLine(core, bufmax, ignorecase, p, start, i) {
        NeverOnLine(core, bufmax, ignorecase, p, start, last + 1, i);
      }
      return false, -1, runs;
    }
  }
}
