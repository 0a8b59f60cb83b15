/** What the patterns of module `Regex` match, told by the characters: each kind of token, one
    after the other, a closure, and a plain text.  Nothing here looks into a way to match. */
module RegexLaws {
  import opened Options
  import opened Regex

  /** The same from inside an argument or not. */
  ghost predicate EndsIn(e: Env, p: seq<char>, inarg: bool, i: nat, j: nat)
    requires EnvOk(e) && Pattern(p, inarg) && i <= e.end + 1
  {
    exists runs :: Match(e, p, inarg, i, runs) == Some(j)
  }

  /** The pattern matches from i to j. */
  ghost predicate Ends(e: Env, p: seq<char>, i: nat, j: nat)
    requires EnvOk(e) && Pattern(p, false) && i <= e.end + 1
  {
    EndsIn(e, p, false, i, j)
  }

  lemma EndsBounds(e: Env, p: seq<char>, i: nat, j: nat)
    requires EnvOk(e) && Pattern(p, false) && i <= e.end + 1 && Ends(e, p, i, j)
    ensures i <= j <= e.end + 1 && MatchesAt(e, p, i)
  {
  }

  // ----- one token -----

  function Lit(c: char): (p: seq<char>)
    ensures Pattern(p, false)
  {
    assert [LITCHAR, c][2..] == [];
    [LITCHAR, c]
  }

  function Class(code: char, cs: seq<char>): (p: seq<char>)
    requires (code == CCL || code == NCCL) && |cs| < 256
    ensures Fits(p) && p[0] == code && Rest(p) == [] && Pattern(p, false)
    ensures p[2..2 + p[1] as int] == cs
  {
    var p := [code, |cs| as char] + cs;
    assert p[2 + |cs|..] == [] && p[2..2 + |cs|] == cs;
    p
  }

  /** One token by itself: it matches from i to j exactly if it takes, or holds at, i. */
  lemma OneToken(e: Env, p: seq<char>, i: nat, j: nat)
    requires EnvOk(e) && Fits(p) && Rest(p) == [] && p[0] != CLOSURE && p[0] != ARGSTART && p[0] != ARGEND
    requires i <= e.end + 1
    ensures Pattern(p, false)
    ensures Ends(e, p, i, j) <==> Passes(e, p, i) && j == if Consuming(p[0]) then i + 1 else i
  {
    var k := if Consuming(p[0]) then i + 1 else i;
    if Passes(e, p, i) {
      assert Match(e, [], false, k, []) == Some(k);
      assert Match(e, p, false, i, []) == Some(k);
    }
    if Ends(e, p, i, j) {
      var runs :| Match(e, p, false, i, runs) == Some(j);
      assert Match(e, [], false, k, runs) == Some(j);
    }
  }

  /** A character, or with ignorecase one that is the same in capitals. */
  lemma LitLaw(e: Env, c: char, i: nat, j: nat)
    requires EnvOk(e) && i <= e.end + 1
    ensures Ends(e, Lit(c), i, j) <==>
            i <= e.end && j == i + 1 && (e.core[i] == c || (e.ignorecase && Upper(e.core[i]) == Upper(c)))
  {
    assert [LITCHAR, c][2..] == [];
    OneToken(e, Lit(c), i, j);
  }

  /** Within the line exactly one of a class and its negation matches, and it takes one character. */
  lemma ClassLaw(e: Env, cs: seq<char>, i: nat, j: nat)
    requires EnvOk(e) && |cs| < 256 && i <= e.end + 1
    ensures Ends(e, Class(CCL, cs), i, j) <==> i <= e.end && j == i + 1 && e.core[i] in cs
    ensures Ends(e, Class(NCCL, cs), i, j) <==> i <= e.end && j == i + 1 && e.core[i] !in cs
  {
    OneToken(e, Class(CCL, cs), i, j);
    OneToken(e, Class(NCCL, cs), i, j);
  }

  /** "." is any character but the end of the line: the same as the negated class of that. */
  lemma AnyLaw(e: Env, i: nat, j: nat)
    requires EnvOk(e) && i <= e.end + 1
    ensures Pattern([ANY], false)
    ensures Ends(e, [ANY], i, j) <==> i <= e.end && j == i + 1 && e.core[i] != '\n'
    ensures Ends(e, [ANY], i, j) <==> Ends(e, Class(NCCL, "\n"), i, j)
  {
    OneToken(e, [ANY], i, j);
    ClassLaw(e, "\n", i, j);
  }

  const SMALL := "abcdefghijklmnopqrstuvwxyz"
  const CAPITAL := "ABCDEFGHIJKLMNOPQRSTUVWXYZ"
  const DIGIT := "0123456789"

  lemma SmallAt(k: nat)
    requires k < 26
    ensures SMALL[k] as int == 97 + k
  {
    assert SMALL[0] == 'a' && SMALL[1] == 'b' && SMALL[2] == 'c' && SMALL[3] == 'd' && SMALL[4] == 'e';
    assert SMALL[5] == 'f' && SMALL[6] == 'g' && SMALL[7] == 'h' && SMALL[8] == 'i' && SMALL[9] == 'j';
    assert SMALL[10] == 'k' && SMALL[11] == 'l' && SMALL[12] == 'm' && SMALL[13] == 'n' && SMALL[14] == 'o';
    assert SMALL[15] == 'p' && SMALL[16] == 'q' && SMALL[17] == 'r' && SMALL[18] == 's' && SMALL[19] == 't';
    assert SMALL[20] == 'u' && SMALL[21] == 'v' && SMALL[22] == 'w' && SMALL[23] == 'x' && SMALL[24] == 'y';
  }

  lemma CapitalAt(k: nat)
    requires k < 26
    ensures CAPITAL[k] as int == 65 + k
  {
    assert CAPITAL[0] == 'A' && CAPITAL[1] == 'B' && CAPITAL[2] == 'C' && CAPITAL[3] == 'D' && CAPITAL[4] == 'E';
  }

  lemma DigitAt(k: nat)
    requires k < 10
    ensures DIGIT[k] as int == 48 + k
  {
  }

  /** What toupper does: the k-th small letter becomes the k-th capital. */
  lemma UpperLaw(c: char)
    ensures c !in SMALL ==> Upper(c) == c
    ensures forall k: nat :: k < 26 && SMALL[k] == c ==> Upper(c) == CAPITAL[k]
  {
    if 'a' <= c <= 'z' {
      SmallAt(c as int - 97);
    }
    forall k: nat | k < 26 && SMALL[k] == c ensures Upper(c) == CAPITAL[k] {
      SmallAt(k);
      CapitalAt(k);
    }
  }

  ghost predicate InWord(c: char)
  {
    c in SMALL || c in CAPITAL || c in DIGIT
  }

  lemma AlnumLaw(c: char)
    ensures Alnum(c) <==> InWord(c)
  {
    if 'a' <= c <= 'z' {
      SmallAt(c as int - 97);
    } else if 'A' <= c <= 'Z' {
      CapitalAt(c as int - 65);
    } else if '0' <= c <= '9' {
      DigitAt(c as int - 48);
    }
    if k: nat :| k < 26 && SMALL[k] == c {
      SmallAt(k);
    } else if k: nat :| k < 26 && CAPITAL[k] == c {
      CapitalAt(k);
    } else if k: nat :| k < 10 && DIGIT[k] == c {
      DigitAt(k);
    }
  }

  /** "^" and "$" take nothing and are told from the characters on either side of i. */
  lemma LineLaw(e: Env, i: nat, j: nat)
    requires EnvOk(e) && i <= e.end + 1
    ensures Pattern([LSTART], false) && Pattern([LEND], false)
    ensures Ends(e, [LSTART], i, j) <==> j == i && (i == 0 || e.core[i - 1] == '\n')
    ensures Ends(e, [LEND], i, j) <==> j == i && e.core[i] == '\n'
  {
    OneToken(e, [LSTART], i, j);
    OneToken(e, [LEND], i, j);
  }

  /** So are "<" and ">": no letter or digit before it, none after it. */
  lemma WordLaw(e: Env, i: nat, j: nat)
    requires EnvOk(e) && i <= e.end + 1
    ensures Pattern([TOKENB], false) && Pattern([TOKENE], false)
    ensures Ends(e, [TOKENB], i, j) <==> j == i && (i == 0 || !InWord(e.core[i - 1]))
    ensures Ends(e, [TOKENE], i, j) <==> j == i && !InWord(e.core[i])
  {
    OneToken(e, [TOKENB], i, j);
    OneToken(e, [TOKENE], i, j);
    AlnumLaw(e.core[i]);
    if i > 0 {
      AlnumLaw(e.core[i - 1]);
    }
  }

  // ----- one token after the other -----

  /** One token that is not a bracket of an argument. */
  predicate Token(p: seq<char>)
  {
    Fits(p) && Rest(p) == [] && p[0] != CLOSURE && p[0] != ARGSTART && p[0] != ARGEND
  }

  lemma SameToken(e: Env, p: seq<char>, q: seq<char>, i: nat)
    requires EnvOk(e) && Token(p)
    ensures Fits(p + q) && Rest(p + q) == q && (p + q)[0] == p[0]
    ensures Takes(e, p + q, i) == Takes(e, p, i)
    ensures i <= e.end + 1 ==> Stands(e, p + q, i) == Stands(e, p, i)
  {
    var pq := p + q;
    if p[0] == CCL || p[0] == NCCL {
      var n := p[1] as int;
      assert pq[2..2 + n] == p[2..2 + n];
    }
  }

  lemma SameRun(e: Env, p: seq<char>, q: seq<char>, i: nat, n: nat)
    requires EnvOk(e) && Token(p) && Fits(p + q)
    ensures Run(e, p + q, i, n) == Run(e, p, i, n)
  {
    forall k: nat ensures Takes(e, p + q, k) == Takes(e, p, k) {
      SameToken(e, p, q, k);
    }
  }

  /** Any pattern is a token and the rest: it matches from i to j exactly if the token matches from i
      to some m and the rest from there to j. */
  lemma ThenLaw(e: Env, p: seq<char>, q: seq<char>, inarg: bool, i: nat, j: nat)
    requires EnvOk(e) && Token(p) && Pattern(q, inarg) && i <= e.end + 1
    ensures Pattern(p, false) && Pattern(p + q, inarg)
    ensures EndsIn(e, p + q, inarg, i, j) <==>
            exists m: nat :: m <= e.end + 1 && Ends(e, p, i, m) && EndsIn(e, q, inarg, m, j)
  {
    var pq := p + q;
    SameToken(e, p, q, i);
    assert Pattern(pq, inarg);
    var n := if Consuming(p[0]) then i + 1 else i;
    OneToken(e, p, i, n);
    if EndsIn(e, pq, inarg, i, j) {
      var runs :| Match(e, pq, inarg, i, runs) == Some(j);
      assert Match(e, q, inarg, n, runs) == Some(j);
      assert n <= e.end + 1 && Ends(e, p, i, n) && EndsIn(e, q, inarg, n, j);
    }
    if m: nat :| m <= e.end + 1 && Ends(e, p, i, m) && EndsIn(e, q, inarg, m, j) {
      OneToken(e, p, i, m);
      var runs :| Match(e, q, inarg, m, runs) == Some(j);
      assert Match(e, pq, inarg, i, runs) == Some(j);
    }
  }

  /** The token by itself matches each character from i to m. */
  ghost predicate EachOne(e: Env, p: seq<char>, i: nat, m: nat)
    requires EnvOk(e) && Pattern(p, false) && m <= e.end + 1
  {
    forall k: nat, k': nat :: i <= k < m && k' == k + 1 ==> Ends(e, p, k, k')
  }

  lemma RunIsEach(e: Env, p: seq<char>, i: nat, n: nat)
    requires EnvOk(e) && Token(p) && Consuming(p[0]) && i + n <= e.end + 1
    ensures Pattern(p, false)
    ensures Run(e, p, i, n) <==> EachOne(e, p, i, i + n)
  {
    assert Pattern(p, false);
    if Run(e, p, i, n) {
      forall k: nat, k': nat | i <= k < i + n && k' == k + 1 ensures Ends(e, p, k, k') {
        assert Takes(e, p, k);
        OneToken(e, p, k, k');
      }
    }
    if EachOne(e, p, i, i + n) {
      forall k: nat | i <= k < i + n ensures Takes(e, p, k) {
        OneToken(e, p, k, k + 1);
      }
    }
  }

  /** One step of Match at a closure. */
  lemma ClosureStep(e: Env, c: seq<char>, pq: seq<char>, q: seq<char>, inarg: bool, i: nat, runs: seq<nat>)
    requires EnvOk(e) && Pattern(c, inarg) && i <= e.end + 1 && c != [] && c[0] == CLOSURE
    requires pq == c[1..] && Fits(pq) && q == Rest(pq) && Pattern(q, inarg)
    ensures runs == [] || !Run(e, pq, i, runs[0]) ==> Match(e, c, inarg, i, runs).None?
    ensures runs != [] && Run(e, pq, i, runs[0]) ==>
      Match(e, c, inarg, i, runs) == Match(e, q, inarg, i + runs[0], runs[1..])
  {
  }

  /** A run of n characters and then the rest. */
  ghost predicate RunThen(e: Env, pq: seq<char>, q: seq<char>, inarg: bool, i: nat, j: nat, n: nat)
    requires EnvOk(e) && Fits(pq) && Pattern(q, inarg)
  {
    Run(e, pq, i, n) && EndsIn(e, q, inarg, i + n, j)
  }

  lemma ClosureRuns(e: Env, c: seq<char>, pq: seq<char>, q: seq<char>, inarg: bool, i: nat, j: nat)
    requires EnvOk(e) && Pattern(c, inarg) && i <= e.end + 1 && c != [] && c[0] == CLOSURE
    requires pq == c[1..] && Fits(pq) && q == Rest(pq) && Pattern(q, inarg)
    requires EndsIn(e, c, inarg, i, j)
    ensures exists n: nat :: RunThen(e, pq, q, inarg, i, j, n)
  {
    var runs :| Match(e, c, inarg, i, runs) == Some(j);
    ClosureStep(e, c, pq, q, inarg, i, runs);
    assert RunThen(e, pq, q, inarg, i, j, runs[0]);
  }

  lemma RunsClosure(e: Env, c: seq<char>, pq: seq<char>, q: seq<char>, inarg: bool, i: nat, j: nat, n: nat)
    requires EnvOk(e) && Pattern(c, inarg) && i <= e.end + 1 && c != [] && c[0] == CLOSURE
    requires pq == c[1..] && Fits(pq) && q == Rest(pq) && Pattern(q, inarg)
    requires RunThen(e, pq, q, inarg, i, j, n)
    ensures EndsIn(e, c, inarg, i, j)
  {
    var runs :| Match(e, q, inarg, i + n, runs) == Some(j);
    var all := [n] + runs;
    assert all[0] == n && all[1..] == runs;
    ClosureStep(e, c, pq, q, inarg, i, all);
  }

  /** A closure and the rest: the token, if it takes characters, matches each character from i to some
      m, and the rest from there to j. */
  lemma ClosureLaw(e: Env, p: seq<char>, q: seq<char>, inarg: bool, i: nat, j: nat)
    requires EnvOk(e) && Token(p) && Consuming(p[0]) && Pattern(q, inarg) && i <= e.end + 1
    ensures Pattern(p, false) && Pattern([CLOSURE] + p + q, inarg)
    ensures EndsIn(e, [CLOSURE] + p + q, inarg, i, j) <==>
            exists m: nat :: i <= m <= e.end + 1 && EachOne(e, p, i, m) && EndsIn(e, q, inarg, m, j)
  {
    var c, pq := [CLOSURE] + p + q, p + q;
    assert c[1..] == pq;
    SameToken(e, p, q, i);
    assert Pattern(c, inarg) && Pattern(p, false);
    if EndsIn(e, c, inarg, i, j) {
      ClosureRuns(e, c, pq, q, inarg, i, j);
      var n: nat :| RunThen(e, pq, q, inarg, i, j, n);
      SameRun(e, p, q, i, n);
      RunIsEach(e, p, i, n);
      assert EndsIn(e, q, inarg, i + n, j);
    }
    if m: nat :| i <= m <= e.end + 1 && EachOne(e, p, i, m) && EndsIn(e, q, inarg, m, j) {
      var n: nat := m - i;
      RunIsEach(e, p, i, n);
      SameRun(e, p, q, i, n);
      RunsClosure(e, c, pq, q, inarg, i, j, n);
    }
  }

  /** Of all the ways to match a closure, the one that is found, whose runs are greatest, goes
      furthest. */
  lemma GreedyLaw(e: Env, p: seq<char>, i: nat, runs: seq<nat>, lastp: nat, j: nat)
    requires EnvOk(e) && Token(p) && Consuming(p[0]) && i <= e.end + 1 && Pattern([CLOSURE] + p, false)
    requires Match(e, [CLOSURE] + p, false, i, runs) == Some(lastp) && Greatest(e, [CLOSURE] + p, false, i, runs)
    requires Ends(e, [CLOSURE] + p, i, j)
    ensures j <= lastp
  {
    var c := [CLOSURE] + p;
    assert c[1..] == p;
    var r :| Match(e, c, false, i, r) == Some(j);
    ClosureStep(e, c, p, [], false, i, r);
    ClosureStep(e, c, p, [], false, i, runs);
    assert AtLeast(runs, r);
  }

  /** The brackets of an argument take nothing and always hold. */
  lemma BracketLaw(e: Env, q: seq<char>, inarg: bool, i: nat, j: nat)
    requires EnvOk(e) && Pattern(q, inarg) && i <= e.end + 1
    ensures var p := [if inarg then ARGSTART else ARGEND] + q;
            Pattern(p, !inarg) && (EndsIn(e, p, !inarg, i, j) <==> EndsIn(e, q, inarg, i, j))
  {
    var p := [if inarg then ARGSTART else ARGEND] + q;
    assert p[1..] == q;
    if EndsIn(e, q, inarg, i, j) {
      var runs :| Match(e, q, inarg, i, runs) == Some(j);
      assert Match(e, p, !inarg, i, runs) == Some(j);
    }
    if EndsIn(e, p, !inarg, i, j) {
      var runs :| Match(e, p, !inarg, i, runs) == Some(j);
      assert Match(e, q, inarg, i, runs) == Some(j);
    }
  }

  // ----- a plain text -----

  /** The pattern that makepat encodes for a text without special characters. */
  function Lits(t: seq<char>): (p: seq<char>)
  {
    if t == [] then [] else Lit(t[0]) + Lits(t[1..])
  }

  lemma {:induction false} LitsPattern(t: seq<char>)
    ensures Pattern(Lits(t), false) && Args(Lits(t), false) == 0
  {
    if t != [] {
      LitsPattern(t[1..]);
      assert Lits(t)[2..] == Lits(t[1..]);
    }
  }

  /** Texts that are the same, letter by letter, or with ignorecase the same in capitals. */
  ghost predicate SameText(s: seq<char>, t: seq<char>, ignorecase: bool)
  {
    && |s| == |t|
    && forall k: nat :: k < |t| ==> s[k] == t[k] || (ignorecase && Upper(s[k]) == Upper(t[k]))
  }

  lemma TextStep(core: seq<char>, t: seq<char>, ignorecase: bool, i: nat, j: nat)
    requires t != [] && i + |t| == j <= |core|
    ensures SameText(core[i..j], t, ignorecase) <==>
            && (core[i] == t[0] || (ignorecase && Upper(core[i]) == Upper(t[0])))
            && SameText(core[i + 1..j], t[1..], ignorecase)
  {
    var x, y, u := core[i..j], core[i + 1..j], t[1..];
    assert x == [core[i]] + y && t == [t[0]] + u;
    if SameText(x, t, ignorecase) {
      forall k: nat | k < |u| ensures y[k] == u[k] || (ignorecase && Upper(y[k]) == Upper(u[k])) {
        assert x[k + 1] == y[k] && t[k + 1] == u[k];
      }
    }
  }

  /** A text matches at i exactly if it stands there, and the match ends where it ends. */
  lemma {:induction false} TextLaw(e: Env, t: seq<char>, i: nat, j: nat)
    requires EnvOk(e) && i <= e.end + 1
    ensures Pattern(Lits(t), false)
    ensures Ends(e, Lits(t), i, j) <==> j == i + |t| <= e.end + 1 && SameText(e.core[i..j], t, e.ignorecase)
    decreases |t|
  {
    LitsPattern(t);
    if t == [] {
      assert Match(e, [], false, i, []) == Some(i);
    } else {
      var c, u := t[0], t[1..];
      LitsPattern(u);
      ThenLaw(e, Lit(c), Lits(u), false, i, j);
      LitLaw(e, c, i, i + 1);
      if i <= e.end {
        TextLaw(e, u, i + 1, j);
        if j == i + |t| <= e.end + 1 {
          TextStep(e.core, t, e.ignorecase, i, j);
        }
      }
      if m: nat :| m <= e.end + 1 && Ends(e, Lit(c), i, m) && Ends(e, Lits(u), m, j) {
        LitLaw(e, c, i, m);
      }
    }
  }

  /** The text stands at i, all but its last character before the end of the line. */
  ghost predicate Occurs(core: seq<char>, bufmax: nat, ignorecase: bool, t: seq<char>, i: nat)
  {
    && i + |t| <= bufmax <= |core|
    && SameText(core[i..i + |t|], t, ignorecase)
    && forall k: nat :: i <= k < i + |t| - 1 ==> core[k] != '\n'
  }

  lemma HitLaw(core: seq<char>, bufmax: nat, ignorecase: bool, t: seq<char>, i: nat)
    requires i < bufmax < |core|
    ensures Pattern(Lits(t), false)
    ensures Hit(core, bufmax, ignorecase, Lits(t), i) <==> Occurs(core, bufmax, ignorecase, t, i)
  {
    var end := LineEnd(core, bufmax, i);
    var e, p := Env(core, end, ignorecase), Lits(t);
    LitsPattern(t);
    if MatchesAt(e, p, i) {
      var runs :| Match(e, p, false, i, runs).Some?;
      var j := Match(e, p, false, i, runs).value;
      assert Ends(e, p, i, j);
      TextLaw(e, t, i, j);
    }
    if Occurs(core, bufmax, ignorecase, t, i) {
      assert i + |t| <= end + 1;
      TextLaw(e, t, i, i + |t|);
      EndsBounds(e, p, i, i + |t|);
    }
  }

  /** A match of p from i goes on with q from j, with no argument closed in between. */
  ghost predicate GoesOn(e: Env, p: seq<char>, i: nat, q: seq<char>, j: nat, inarg: bool, runs: seq<nat>, open: nat)
    requires EnvOk(e) && Pattern(p, inarg) && Pattern(q, inarg) && open <= i <= e.end + 1
  {
    Match(e, p, inarg, i, runs).Some? ==>
      && i <= j <= e.end + 1 && Match(e, q, inarg, j, runs).Some?
      && Caps(e, p, inarg, i, runs, open) == Caps(e, q, inarg, j, runs, open)
  }

  lemma GoesOnTrans(e: Env, p: seq<char>, i: nat, u: seq<char>, k: nat, q: seq<char>, j: nat, inarg: bool,
                    runs: seq<nat>, open: nat)
    requires EnvOk(e) && Pattern(p, inarg) && Pattern(u, inarg) && Pattern(q, inarg) && open <= i <= e.end + 1
    requires GoesOn(e, p, i, u, k, inarg, runs, open)
    requires i <= k <= e.end + 1 ==> GoesOn(e, u, k, q, j, inarg, runs, open)
    ensures GoesOn(e, p, i, q, j, inarg, runs, open)
  {
  }

  lemma PastLit(e: Env, c: char, u: seq<char>, p: seq<char>, inarg: bool, i: nat, runs: seq<nat>, open: nat)
    requires EnvOk(e) && p == Lit(c) + u && Pattern(u, inarg) && Pattern(p, inarg) && open <= i <= e.end + 1
    ensures GoesOn(e, p, i, u, i + 1, inarg, runs, open)
  {
    assert p[2..] == u && Fits(p) && Rest(p) == u;
  }

  lemma LitsFirst(t: seq<char>, q: seq<char>)
    requires t != []
    ensures Lits(t) + q == Lit(t[0]) + (Lits(t[1..]) + q)
  {
  }

  lemma {:induction false} LitsThen(t: seq<char>, q: seq<char>, inarg: bool)
    requires Pattern(q, inarg)
    ensures Pattern(Lits(t) + q, inarg)
  {
    var p := Lits(t) + q;
    if t == [] {
      assert p == q;
    } else {
      LitsThen(t[1..], q, inarg);
      LitsFirst(t, q);
      assert Rest(p) == Lits(t[1..]) + q;
    }
  }

  /** Matching on past a text moves on by its length and closes no argument. */
  lemma {:induction false} PastText(e: Env, t: seq<char>, q: seq<char>, p: seq<char>, inarg: bool, i: nat, j: nat,
                                    runs: seq<nat>, open: nat)
    requires EnvOk(e) && Pattern(q, inarg) && open <= i <= e.end + 1 && p == Lits(t) + q && Pattern(p, inarg)
    requires j == i + |t|
    ensures GoesOn(e, p, i, q, j, inarg, runs, open)
    decreases |t|
  {
    if t == [] {
      assert p == q;
    } else {
      var c, s, k := t[0], t[1..], i + 1;
      var u := Lits(s) + q;
      LitsFirst(t, q);
      LitsThen(s, q, inarg);
      if k <= e.end + 1 {
        PastText(e, s, q, u, inarg, k, j, runs, open);
      }
      PastLit(e, c, u, p, inarg, i, runs, open);
      GoesOnTrans(e, p, i, u, k, q, j, inarg, runs, open);
    }
  }

  /** A text in brackets is recorded as an argument: where it begins and its length. */
  lemma ArgumentLaw(e: Env, t: seq<char>, i: nat, runs: seq<nat>)
    requires EnvOk(e) && i <= e.end + 1
    ensures var p := [ARGSTART] + (Lits(t) + [ARGEND]);
            && Pattern(p, false)
            && (Match(e, p, false, i, runs).Some? ==> Caps(e, p, false, i, runs, 0) == [Cap(i, |t|)])
  {
    var p, q := [ARGSTART] + (Lits(t) + [ARGEND]), [ARGEND];
    assert q[1..] == [] && Pattern(q, true);
    LitsThen(t, q, true);
    PastText(e, t, q, Lits(t) + q, true, i, i + |t|, runs, i);
    assert p[1..] == Lits(t) + q && Pattern(p, false);
    if Match(e, p, false, i, runs).Some? {
      assert Caps(e, p, false, i, runs, 0) == Caps(e, Lits(t) + q, true, i, runs, i);
      assert Caps(e, q, true, i + |t|, runs, i) == [Cap(i, |t|)] + Caps(e, [], false, i + |t|, runs, i);
    }
  }

  // ----- searching for a plain text -----

  lemma {:induction false} TextNeverHangs(e: Env, t: seq<char>, i: nat)
    requires EnvOk(e) && i <= e.end + 1
    ensures Pattern(Lits(t), false) && !Hangs(e, Lits(t), false, i)
    decreases |t|
  {
    LitsPattern(t);
    if t != [] {
      LitsPattern(t[1..]);
      assert Rest(Lits(t)) == Lits(t[1..]);
      TextNeverHangs(e, t[1..], if i <= e.end then i + 1 else i);
    }
  }

  /** findfwd with a plain text: the first place, on the lines that start before endp, where the text
      stands; the search always ends. */
  method FindText(m: Matcher, t: seq<char>, start: nat, endp: nat) returns (r: int)
    requires m.Valid() && endp <= m.bufmax && t != []
    modifies m`arg, m`lastp, m.reStart, m.reSize
    ensures r == -1 && start < endp ==> forall i: nat ::
      start <= i <= LineEnd(m.core, m.bufmax, endp - 1) ==> !Occurs(m.core, m.bufmax, m.ignorecase, t, i)
    ensures r != -1 ==>
      && start <= r && Occurs(m.core, m.bufmax, m.ignorecase, t, r) && m.lastp == r + |t|
      && forall i: nat :: start <= i < r ==> !Occurs(m.core, m.bufmax, m.ignorecase, t, i)
  {
    LitsPattern(t);
    ghost var core, bufmax, ic, p := m.core, m.bufmax, m.ignorecase, Lits(t);
    forall i: nat | i < bufmax
      ensures Hit(core, bufmax, ic, p, i) <==> Occurs(core, bufmax, ic, t, i)
      ensures !HangsAt(core, bufmax, ic, p, i)
    {
      HitLaw(core, bufmax, ic, t, i);
      TextNeverHangs(Env(core, LineEnd(core, bufmax, i), ic), t, i);
    }
    var hang;
    ghost var runs;
    hang, r, runs := m.Findfwd(Lits(t), start, endp);
    if r != -1 {
      var e := Env(core, LineEnd(core, bufmax, r), ic);
      TextLaw(e, t, r, m.lastp);
    }
  }
}
