/** Macro expansion in make (cmd/make/macro.c).

    The list of macros is a sequence, newest first; a pointer into it is the distance from the
    end, which does not change when a macro is added at the front.  A fatal error ends the
    expansion; the methods then return false. */
module Macro {
  // ----- what a string expands to -----

  /** The position of c in t, from i on, or the end of t. */
  function IndexOf(t: string, i: nat, c: char): (k: nat)
    requires i <= |t|
    ensures i <= k <= |t| && (k < |t| ==> t[k] == c) && c !in t[i..k]
    decreases |t| - i
  {
    if i == |t| || t[i] == c then i else IndexOf(t, i + 1, c)
  }

  /** The name at the start of t, which follows a dollar, and the length of the reference. */
  function Reference(t: string): (r: (string, nat))
    requires t != []
    ensures 0 < r.1 <= |t|
  {
    if t[0] == '{' || t[0] == '(' then
      var k := IndexOf(t, 1, if t[0] == '{' then '}' else ')');
      (t[1..k], if k < |t| then k + 1 else k)
    else (t[..1], 1)
  }

  /** The text, and whether a macro with M_MAKE was expanded; or a macro that contains itself. */
  datatype Expansion = Text(text: string, make: bool) | Recursive

  function Joined(a: Expansion, b: Expansion): Expansion
  {
    if a.Recursive? || b.Recursive? then Recursive else Text(a.text + b.text, a.make || b.make)
  }

  lemma JoinedEmpty(a: Expansion)
    ensures Joined(Text("", false), a) == a
  {
    if a.Text? {
      assert "" + a.text == a.text;
    }
  }

  function ValueOf(m: map<string, string>, name: string): string
  {
    if name in m then m[name] else ""
  }

  /** s with every reference replaced by the expansion of its macro, in which the macro itself
      may not occur; an unknown macro is empty.  `active` are the macros being expanded, `makes`
      those with M_MAKE. */
  function Expand(m: map<string, string>, makes: set<string>, s: string, active: set<string>): (r: Expansion)
    decreases m.Keys - active, |s|
  {
    if s == "" then Text("", false)
    else if s[0] != '$' then Joined(Text(s[..1], false), Expand(m, makes, s[1..], active))
    else if |s| == 1 then Text("$", false)
    else
      var (name, n) := Reference(s[1..]);
      if name in active then Recursive
      else Joined(Joined(Text("", name in makes), Expand(m, makes, ValueOf(m, name), active + {name})),
        Expand(m, makes, s[1 + n..], active))
  }

  /** m' has the macros of m, and others that are empty. */
  predicate Extends(m: map<string, string>, m': map<string, string>)
  {
    && (forall x :: x in m ==> x in m' && m'[x] == m[x])
    && (forall x :: x in m' && x !in m ==> m'[x] == "")
  }

  /** Defining unknown macros as empty changes no expansion. */
  lemma {:induction false} SameExpansion(m: map<string, string>, m': map<string, string>, makes: set<string>,
                                         s: string, active: set<string>)
    requires Extends(m, m')
    ensures Expand(m', makes, s, active) == Expand(m, makes, s, active)
    decreases m.Keys - active, |s|
  {
    if s == "" || (s[0] == '$' && |s| == 1) {
    } else if s[0] != '$' {
      SameExpansion(m, m', makes, s[1..], active);
    } else {
      var (name, n) := Reference(s[1..]);
      if name !in active {
        SameExpansion(m, m', makes, ValueOf(m, name), active + {name});
        SameExpansion(m, m', makes, s[1 + n..], active);
      }
    }
  }

  /** The first c after a text without it, which is from its second character on. */
  lemma Bracketed(u: string, v: string, c: char)
    requires u != "" && c !in u[1..] && (v == "" || v[0] == c)
    ensures IndexOf(u + v, 1, c) == |u| && (u + v)[1..|u|] == u[1..]
  {
    assert (u + v)[1..|u|] == u[1..];
  }

  /** A name in brackets, up to the first closing one or else to the end. */
  lemma InBrackets(open: char, close: char, name: string, t: string)
    requires (open == '(' && close == ')') || (open == '{' && close == '}')
    requires close !in name
    ensures Reference([open] + name + [close] + t) == (name, |name| + 2)
    ensures Reference([open] + name) == (name, |name| + 1)
  {
    var u := [open] + name;
    assert u[1..] == name;
    var v := [close] + t;
    Bracketed(u, v, close);
    assert [open] + name + [close] + t == u + v;
    Bracketed(u, "", close);
    assert u + "" == u;
  }

  /** The forms of a reference: a name in brackets, up to the first closing one, or one character. */
  lemma ReferenceForms(name: string, t: string, c: char)
    ensures ')' !in name ==> Reference("(" + name + ")" + t) == (name, |name| + 2)
    ensures '}' !in name ==> Reference("{" + name + "}" + t) == (name, |name| + 2)
    ensures ')' !in name ==> Reference("(" + name) == (name, |name| + 1)
    ensures '}' !in name ==> Reference("{" + name) == (name, |name| + 1)
    ensures c != '(' && c != '{' ==> Reference([c] + t) == ([c], 1)
  {
    if ')' !in name {
      InBrackets('(', ')', name, t);
    }
    if '}' !in name {
      InBrackets('{', '}', name, t);
    }
    var s := [c] + t;
    assert s[..1] == [c];
  }

  lemma PlainFirst(m: map<string, string>, makes: set<string>, c: char, t: string, active: set<string>)
    requires c != '$'
    ensures Expand(m, makes, [c] + t, active) == Joined(Text([c], false), Expand(m, makes, t, active))
  {
    var s := [c] + t;
    assert s[..1] == [c] && s[1..] == t;
  }

  lemma Regroup(a: string, b: string, c: string)
    ensures a + (b + c) == a + b + c
  {
  }

  lemma JoinedTwice(a: Expansion, b: Expansion, c: Expansion)
    ensures Joined(a, Joined(b, c)) == Joined(Joined(a, b), c)
  {
    if a.Text? && b.Text? && c.Text? {
      Regroup(a.text, b.text, c.text);
    }
  }

  /** Text without references stays as it is. */
  lemma {:induction false} PlainPrefix(m: map<string, string>, makes: set<string>, s: string, t: string,
                                       active: set<string>)
    requires '$' !in s
    ensures Expand(m, makes, s + t, active) == Joined(Text(s, false), Expand(m, makes, t, active))
  {
    if s == "" {
      assert s + t == t;
      JoinedEmpty(Expand(m, makes, t, active));
    } else {
      var c, u := s[..1], s[1..];
      assert s == c + u && s + t == c + (u + t);
      PlainFirst(m, makes, s[0], u + t, active);
      PlainPrefix(m, makes, u, t, active);
      JoinedTwice(Text(c, false), Text(u, false), Expand(m, makes, t, active));
    }
  }

  /** A reference and what follows it. */
  lemma OneReference(m: map<string, string>, makes: set<string>, name: string, t: string, active: set<string>)
    requires ')' !in name && name !in active
    ensures Expand(m, makes, "$(" + name + ")" + t, active) ==
            Joined(Joined(Text("", name in makes), Expand(m, makes, ValueOf(m, name), active + {name})),
                   Expand(m, makes, t, active))
  {
    var s, u, n := "$(" + name + ")" + t, "(" + name + ")" + t, |name| + 2;
    ReferenceForms(name, t, '$');
    assert s[1..] == u && s[1 + n..] == t && s[0] == '$' && |s| > 1;
  }

  lemma PlainText(m: map<string, string>, makes: set<string>, s: string, active: set<string>)
    requires '$' !in s
    ensures Expand(m, makes, s, active) == Text(s, false)
  {
    PlainPrefix(m, makes, s, "", active);
    assert s + "" == s;
  }

  /** A reference in plain text is replaced by its macro's value, if that is plain too. */
  lemma Substituted(m: map<string, string>, makes: set<string>, pre: string, name: string, post: string)
    requires '$' !in pre && '$' !in post && ')' !in name && name in m && '$' !in m[name]
    ensures Expand(m, makes, pre + ("$(" + name + ")" + post), {}) == Text(pre + (m[name] + post), name in makes)
  {
    PlainPrefix(m, makes, pre, "$(" + name + ")" + post, {});
    OneReference(m, makes, name, post, {});
    PlainText(m, makes, m[name], {} + {name});
    PlainText(m, makes, post, {});
    assert "" + m[name] == m[name];
  }

  // ----- when a macro contains itself -----

  /** The macros that s refers to. */
  function Names(s: string): (r: set<string>)
  {
    if s == "" then {}
    else if s[0] != '$' then Names(s[1..])
    else if |s| == 1 then {}
    else
      var (name, n) := Reference(s[1..]);
      {name} + Names(s[1 + n..])
  }

  /** Each macro of the path is referred to by the one before, the first one by s. */
  ghost predicate Path(m: map<string, string>, s: string, path: seq<string>)
    decreases |path|
  {
    path != [] && path[0] in Names(s) && (|path| > 1 ==> Path(m, ValueOf(m, path[0]), path[1..]))
  }

  /** The path ends at a macro that is being expanded by then. */
  ghost predicate Closed(path: seq<string>, active: set<string>)
  {
    path != [] && (path[|path| - 1] in active || path[|path| - 1] in path[..|path| - 1])
  }

  /** A path of two or more is closed exactly when it is after its first step. */
  lemma ClosedLater(path: seq<string>, active: set<string>)
    requires |path| > 1
    ensures Closed(path, active) <==> Closed(path[1..], active + {path[0]})
  {
    var k := |path| - 1;
    assert path[..k] == [path[0]] + path[1..][..k - 1];
  }

  lemma {:induction false} CycleOf(m: map<string, string>, makes: set<string>, s: string, active: set<string>)
    returns (path: seq<string>)
    requires Expand(m, makes, s, active).Recursive?
    ensures Path(m, s, path) && Closed(path, active)
    decreases m.Keys - active, |s|
  {
    if s[0] != '$' {
      path := CycleOf(m, makes, s[1..], active);
    } else {
      var (name, n) := Reference(s[1..]);
      if name in active {
        path := [name];
      } else if Expand(m, makes, ValueOf(m, name), active + {name}).Recursive? {
        var rest := CycleOf(m, makes, ValueOf(m, name), active + {name});
        path := [name] + rest;
        assert path[1..] == rest;
        ClosedLater(path, active);
      } else {
        path := CycleOf(m, makes, s[1 + n..], active);
      }
    }
  }

  lemma {:induction false} CycleFails(m: map<string, string>, makes: set<string>, s: string, active: set<string>,
                                      path: seq<string>)
    requires Path(m, s, path) && Closed(path, active)
    ensures Expand(m, makes, s, active).Recursive?
    decreases m.Keys - active, |s|
  {
    if s[0] != '$' {
      CycleFails(m, makes, s[1..], active, path);
    } else {
      var (name, n) := Reference(s[1..]);
      if name in active {
      } else if path[0] == name && |path| > 1 {
        ClosedLater(path, active);
        CycleFails(m, makes, ValueOf(m, name), active + {name}, path[1..]);
      } else if path[0] != name {
        CycleFails(m, makes, s[1 + n..], active, path);
      }
    }
  }

  /** Expansion fails exactly when some chain of references comes back on itself. */
  lemma FailsExactly(m: map<string, string>, makes: set<string>, s: string, active: set<string>)
    ensures Expand(m, makes, s, active).Recursive? <==> exists path :: Path(m, s, path) && Closed(path, active)
  {
    if Expand(m, makes, s, active).Recursive? {
      var path := CycleOf(m, makes, s, active);
    }
    forall path | Path(m, s, path) && Closed(path, active) ensures Expand(m, makes, s, active).Recursive? {
      CycleFails(m, makes, s, active, path);
    }
  }

  // ----- the table and the output -----

  /** struct macro, with its flags. */
  datatype Entry = Entry(name: string, val: string, mark: bool, fixed: bool, make: bool)

  predicate Distinct(macros: seq<Entry>)
  {
    forall i, j :: 0 <= i < j < |macros| ==> macros[i].name != macros[j].name
  }

  /** The values of the macros. */
  ghost function Table(macros: seq<Entry>): (m: map<string, string>)
  {
    if macros == [] then map[] else Table(macros[1..])[macros[0].name := macros[0].val]
  }

  ghost function Marked(macros: seq<Entry>): (r: set<string>)
  {
    set i | 0 <= i < |macros| && macros[i].mark :: macros[i].name
  }

  ghost function Makes(macros: seq<Entry>): (r: set<string>)
  {
    set i | 0 <= i < |macros| && macros[i].make :: macros[i].name
  }

  lemma {:induction false} TableAt(macros: seq<Entry>, i: nat)
    requires Distinct(macros) && i < |macros|
    ensures macros[i].name in Table(macros) && Table(macros)[macros[i].name] == macros[i].val
  {
    if i > 0 {
      TableAt(macros[1..], i - 1);
    }
  }

  lemma {:induction false} InTable(macros: seq<Entry>, name: string)
    ensures name in Table(macros) <==> exists i :: 0 <= i < |macros| && macros[i].name == name
  {
    if macros != [] {
      InTable(macros[1..], name);
      if exists i :: 0 <= i < |macros| && macros[i].name == name {
        var i :| 0 <= i < |macros| && macros[i].name == name;
        assert i > 0 ==> macros[1..][i - 1].name == name;
      }
      if exists i :: 0 <= i < |macros[1..]| && macros[1..][i].name == name {
        var i :| 0 <= i < |macros[1..]| && macros[1..][i].name == name;
        assert macros[i + 1].name == name;
      }
    }
  }

  /** Setting or clearing a mark changes no value. */
  lemma {:induction false} MarkKeepsTable(macros: seq<Entry>, i: nat, mark: bool)
    requires i < |macros|
    ensures Table(macros[i := macros[i].(mark := mark)]) == Table(macros)
  {
    var marked := macros[i := macros[i].(mark := mark)];
    if i == 0 {
      assert marked[1..] == macros[1..];
    } else {
      MarkKeepsTable(macros[1..], i - 1, mark);
      assert marked[1..] == macros[1..][i - 1 := macros[1..][i - 1].(mark := mark)];
    }
  }

  lemma MarkFacts(macros: seq<Entry>, i: nat, mark: bool)
    requires Distinct(macros) && i < |macros|
    ensures var marked := macros[i := macros[i].(mark := mark)];
            && Distinct(marked) && Table(marked) == Table(macros) && Makes(marked) == Makes(macros)
            && Marked(marked) == if mark then Marked(macros) + {macros[i].name} else Marked(macros) - {macros[i].name}
  {
    MarkKeepsTable(macros, i, mark);
    var marked := macros[i := macros[i].(mark := mark)];
    forall name ensures name in Makes(marked) <==> name in Makes(macros) {
      if name in Makes(marked) {
        var j :| 0 <= j < |marked| && marked[j].make && marked[j].name == name;
        assert macros[j].make && macros[j].name == name;
      }
      if name in Makes(macros) {
        var j :| 0 <= j < |macros| && macros[j].make && macros[j].name == name;
        assert marked[j].make && marked[j].name == name;
      }
    }
    forall name
      ensures name in Marked(marked) <==>
        (name in Marked(macros) && name != macros[i].name) || (mark && name == macros[i].name)
    {
      if name in Marked(marked) {
        var j :| 0 <= j < |marked| && marked[j].mark && marked[j].name == name;
        assert j != i ==> macros[j].mark && macros[j].name == name;
      }
      if name in Marked(macros) && name != macros[i].name {
        var j :| 0 <= j < |macros| && macros[j].mark && macros[j].name == name;
        assert marked[j].mark && marked[j].name == name;
      }
      if mark && name == macros[i].name {
        assert marked[i].mark && marked[i].name == name;
      }
    }
  }

  /** Only empty macros without flags have been added, at the front. */
  predicate Grown(before: seq<Entry>, macros: seq<Entry>)
  {
    && |before| <= |macros| && macros[|macros| - |before|..] == before
    && forall i :: 0 <= i < |macros| - |before| ==> macros[i].val == "" && !macros[i].mark && !macros[i].make
  }

  lemma GrownTwice(a: seq<Entry>, b: seq<Entry>, c: seq<Entry>)
    requires Grown(a, b) && Grown(b, c)
    ensures Grown(a, c)
  {
    var n := |c| - |b|;
    assert c[|c| - |a|..] == c[n..][|b| - |a|..];
    forall i | n <= i < |c| - |a| ensures c[i].val == "" && !c[i].mark && !c[i].make {
      assert c[i] == c[n..][i - n] == b[i - n];
    }
  }

  lemma FlagsOfRest(macros: seq<Entry>)
    requires macros != [] && !macros[0].mark && !macros[0].make
    ensures Marked(macros) == Marked(macros[1..]) && Makes(macros) == Makes(macros[1..])
  {
    forall name ensures name in Marked(macros) <==> name in Marked(macros[1..]) {
      if name in Marked(macros) {
        var i :| 0 <= i < |macros| && macros[i].mark && macros[i].name == name;
        assert macros[1..][i - 1].mark && macros[1..][i - 1].name == name;
      }
      if name in Marked(macros[1..]) {
        var i :| 0 <= i < |macros[1..]| && macros[1..][i].mark && macros[1..][i].name == name;
        assert macros[i + 1].mark && macros[i + 1].name == name;
      }
    }
    forall name ensures name in Makes(macros) <==> name in Makes(macros[1..]) {
      if name in Makes(macros) {
        var i :| 0 <= i < |macros| && macros[i].make && macros[i].name == name;
        assert macros[1..][i - 1].make && macros[1..][i - 1].name == name;
      }
      if name in Makes(macros[1..]) {
        var i :| 0 <= i < |macros[1..]| && macros[1..][i].make && macros[1..][i].name == name;
        assert macros[i + 1].make && macros[i + 1].name == name;
      }
    }
  }

  lemma {:induction false} GrownFacts(before: seq<Entry>, macros: seq<Entry>)
    requires Distinct(macros) && Grown(before, macros)
    ensures Extends(Table(before), Table(macros)) && Marked(macros) == Marked(before) && Makes(macros) == Makes(before)
    decreases |macros| - |before|
  {
    if |macros| == |before| {
      assert macros == before;
    } else {
      assert macros[1..][|macros| - 1 - |before|..] == macros[|macros| - |before|..];
      GrownFacts(before, macros[1..]);
      InTable(macros[1..], macros[0].name);
      FlagsOfRest(macros);
    }
  }

  /** What an expansion adds to the list changes no later expansion. */
  lemma SameAfter(before: seq<Entry>, macros: seq<Entry>, s: string, active: set<string>)
    requires Distinct(macros) && Grown(before, macros)
    ensures Expand(Table(macros), Makes(macros), s, active) == Expand(Table(before), Makes(before), s, active)
  {
    GrownFacts(before, macros);
    SameExpansion(Table(before), Table(macros), Makes(before), s, active);
  }

  /** s is the C string in t: what comes before the NUL. */
  predicate IsCString(t: seq<char>, s: string)
  {
    |s| < |t| && t[..|s|] == s && t[|s|] == '\0' && '\0' !in s
  }

  ghost predicate TableOk(macros: seq<Entry>, m: map<string, string>, makes: set<string>, active: set<string>)
  {
    Distinct(macros) && Extends(m, Table(macros)) && makes == Makes(macros) && active == Marked(macros)
  }

  lemma StillTable(before: seq<Entry>, macros: seq<Entry>, m: map<string, string>, makes: set<string>,
                   active: set<string>)
    requires TableOk(before, m, makes, active) && Distinct(macros) && Grown(before, macros)
    ensures TableOk(macros, m, makes, active)
  {
    GrownFacts(before, macros);
  }

  /** Up to rp the expansion has given acc. */
  ghost predicate Pending(m: map<string, string>, makes: set<string>, from: string, active: set<string>, rp: nat,
                          acc: string, mk: bool)
  {
    rp <= |from| && Expand(m, makes, from, active) == Joined(Text(acc, mk), Expand(m, makes, from[rp..], active))
  }

  lemma PendingStart(m: map<string, string>, makes: set<string>, from: string, active: set<string>)
    ensures Pending(m, makes, from, active, 0, "", false)
  {
    assert from[0..] == from;
    var r := Expand(m, makes, from, active);
    assert r.Text? ==> "" + r.text == r.text;
  }

  lemma PendingDone(m: map<string, string>, makes: set<string>, from: string, active: set<string>, rp: nat,
                    acc: string, mk: bool)
    requires Pending(m, makes, from, active, rp, acc, mk) && rp >= |from|
    ensures Expand(m, makes, from, active) == Text(acc, mk)
  {
    assert from[rp..] == "" && acc + "" == acc;
  }

  /** Macro mp has been marked. */
  predicate Entered(before: seq<Entry>, macros: seq<Entry>, mp: nat)
  {
    && 0 < mp <= |before| && !before[|before| - mp].mark
    && macros == before[|before| - mp := before[|before| - mp].(mark := true)]
  }

  lemma PlainChar(m: map<string, string>, makes: set<string>, from: string, active: set<string>, rp: nat, acc: string,
                  mk: bool)
    requires rp < |from| && from[rp] != '$' && Pending(m, makes, from, active, rp, acc, mk)
    ensures Pending(m, makes, from, active, rp + 1, acc + [from[rp]], mk)
  {
    assert from[rp..][1..] == from[rp + 1..] && from[rp..][..1] == [from[rp]];
    JoinedTwice(Text(acc, mk), Text([from[rp]], false), Expand(m, makes, from[rp + 1..], active));
  }

  lemma LoneDollar(m: map<string, string>, makes: set<string>, from: string, active: set<string>, rp: nat,
                   acc: string, mk: bool)
    requires rp + 1 == |from| && from[rp] == '$' && Pending(m, makes, from, active, rp, acc, mk)
    ensures Pending(m, makes, from, active, rp + 1, acc + "$", mk)
  {
    assert from[rp + 1..] == "";
    assert acc + "$" + "" == acc + "$";
  }

  lemma MacroDone(m: map<string, string>, makes: set<string>, from: string, active: set<string>, rp: nat, acc: string,
                  mk: bool, name: string, next: nat)
    requires rp + 1 < |from| && from[rp] == '$' && rp + 1 < next && (name, next - (rp + 1)) == Reference(from[rp + 1..])
    requires Pending(m, makes, from, active, rp, acc, mk)
    ensures var r := Expand(m, makes, ValueOf(m, name), active + {name});
            if name !in active && r.Text? then
              Pending(m, makes, from, active, next, acc + r.text, mk || (name in makes || r.make))
            else Expand(m, makes, from, active).Recursive?
  {
    var s := from[rp..];
    assert s[1..] == from[rp + 1..] && s[1 + (next - (rp + 1))..] == from[next..];
    if name !in active {
      var r, rest := Expand(m, makes, ValueOf(m, name), active + {name}), Expand(m, makes, from[next..], active);
      JoinedTwice(Text(acc, mk), Joined(Text("", name in makes), r), rest);
      JoinedTwice(Text(acc, mk), Text("", name in makes), r);
      assert acc + "" == acc;
    }
  }

  lemma FlagsAt(macros: seq<Entry>, i: nat)
    requires Distinct(macros) && i < |macros|
    ensures macros[i].mark <==> macros[i].name in Marked(macros)
    ensures macros[i].make <==> macros[i].name in Makes(macros)
  {
  }

  /** Clearing the mark gives the list as it was, but for what was added in between. */
  lemma Unmarked(before: seq<Entry>, marked: seq<Entry>, macros: seq<Entry>, i: nat, j: nat)
    requires i < |before| && !before[i].mark && marked == before[i := before[i].(mark := true)]
    requires Distinct(macros) && Grown(marked, macros) && j == |macros| - (|before| - i)
    ensures var cleared := macros[j := macros[j].(mark := false)];
            Distinct(cleared) && Grown(before, cleared)
  {
    var cleared, n := macros[j := macros[j].(mark := false)], |macros| - |before|;
    forall k | 0 <= k < |before| ensures cleared[n..][k] == before[k] {
      assert macros[n..][k] == macros[n + k] == marked[k];
    }
    assert cleared[n..] == before;
  }

  /** struct str: a string that grows; len is how much of it may be used. */
  class Str {
    var text: array<char>
    var pos: nat
    var len: nat

    ghost predicate Valid()
      reads this
    {
      pos <= len <= text.Length && 0 < len
    }

    ghost function Output(): string
      requires Valid()
      reads this, text
    {
      text[..pos]
    }

    constructor (len: nat)
      requires 0 < len
      ensures Valid() && Output() == "" && this.len == len && fresh(text)
    {
      text := new char[len](_ => ' ');
      this.len := len;
      pos := 0;
    }

    method Put(c: char)
      requires Valid() && pos < len
      modifies this`pos, text
      ensures Valid() && Output() == old(Output()) + [c]
    {
      text[pos] := c;
      pos := pos + 1;
    }

    /** The test at the end of doexp's loop, with strrealloc. */
    method Grow()
      requires Valid()
      modifies this`text, this`len
      ensures Valid() && Output() == old(Output()) && pos == old(pos) < len && (text == old(text) || fresh(text))
    {
      if pos >= len {
        len := len * 2;
        var bigger := new char[len + 16](_ => ' ');
        forall i | 0 <= i < text.Length && i < len {
          bigger[i] := text[i];
        }
        text := bigger;
      }
    }
  }

  class Make {
    var macros: seq<Entry>     // macrohead
    var expmake: bool

    constructor ()
      ensures macros == [] && !expmake
    {
      macros, expmake := [], false;
    }

    /** getmp. */
    method Getmp(name: string) returns (found: bool, mp: nat)
      ensures found ==> 0 < mp <= |macros| && macros[|macros| - mp].name == name
      ensures !found ==> forall i :: 0 <= i < |macros| ==> macros[i].name != name
    {
      var i := 0;
      while i < |macros|
        invariant 0 <= i <= |macros|
        invariant forall j :: 0 <= j < i ==> macros[j].name != name
      {
        if macros[i].name == name {
          return true, |macros| - i;
        }
        i := i + 1;
      }
      return false, 0;
    }

    /** setmacro: afterwards the macro has the value, unless its definition is fixed. */
    method Setmacro(name: string, val: string) returns (mp: nat)
      requires Distinct(macros)
      modifies this`macros
      ensures Distinct(macros) && 0 < mp <= |macros| && macros[|macros| - mp].name == name
      ensures var there := exists i :: 0 <= i < |old(macros)| && old(macros)[i].name == name;
              if there then
                && |macros| == |old(macros)| && old(macros)[|macros| - mp].name == name
                && macros == (if old(macros)[|macros| - mp].fixed then old(macros)
                              else old(macros)[|macros| - mp := old(macros)[|macros| - mp].(val := val)])
              else mp == |macros| && macros == [Entry(name, val, false, false, false)] + old(macros)
    {
      var found;
      found, mp := Getmp(name);
      if found {
        if macros[|macros| - mp].fixed {
          return;
        }
        macros := macros[|macros| - mp := macros[|macros| - mp].(val := val)];
      } else {
        macros := [Entry(name, val, false, false, false)] + macros;
        mp := |macros|;
      }
    }

    /** The name after a dollar. */
    method ReadName(from: string, start: nat) returns (name: string, rp: nat)
      requires start < |from|
      ensures rp > start && (name, rp - start) == Reference(from[start..])
    {
      rp := start;
      if from[rp] == '{' || from[rp] == '(' {
        var close := if from[rp] == '{' then '}' else ')';
        ghost var t := from[start..];
        rp := rp + 1;
        name := "";
        while rp < |from| && from[rp] != close
          invariant start < rp <= |from| && name == t[1..rp - start]
          invariant IndexOf(t, rp - start, close) == IndexOf(t, 1, close)
        {
          name := name + [from[rp]];
          rp := rp + 1;
        }
        if rp < |from| {
          rp := rp + 1;
        }
      } else {
        assert from[start..][..1] == [from[rp]];
        return [from[rp]], rp + 1;
      }
    }

    /** The macro of this name, defined as empty if there is none. */
    method Resolve(name: string, ghost m: map<string, string>) returns (mp: nat)
      requires Distinct(macros) && Extends(m, Table(macros))
      modifies this`macros
      ensures Distinct(macros) && Grown(old(macros), macros) && Extends(m, Table(macros))
      ensures 0 < mp <= |macros| && macros[|macros| - mp].name == name && macros[|macros| - mp].val == ValueOf(m, name)
    {
      var found;
      found, mp := Getmp(name);
      if !found {
        InTable(macros, name);
        mp := Setmacro(name, "");
      }
      GrownFacts(old(macros), macros);
      TableAt(macros, |macros| - mp);
    }

    /** Look the macro up and mark it; false if it is marked already. */
    method Enter(name: string, ghost m: map<string, string>, ghost makes: set<string>, ghost active: set<string>)
      returns (ok: bool, mp: nat, val: string, ghost before: seq<Entry>)
      requires Distinct(macros) && Extends(m, Table(macros)) && makes == Makes(macros) && active == Marked(macros)
      modifies this`macros, this`expmake
      ensures ok <==> name !in active
      ensures ok ==>
        && Distinct(macros) && Extends(m, Table(macros)) && makes == Makes(macros) && Marked(macros) == active + {name}
        && val == ValueOf(m, name) && expmake == (old(expmake) || name in makes)
        && Grown(old(macros), before) && Entered(before, macros, mp)
    {
      mp := Resolve(name, m);
      before := macros;
      GrownFacts(old(macros), macros);
      var i := |macros| - mp;
      FlagsAt(macros, i);
      ok := !macros[i].mark;
      val := macros[i].val;
      if ok {
        MarkFacts(macros, i, true);
        if macros[i].make {
          expmake := true;
        }
        macros := macros[i := macros[i].(mark := true)];
      }
    }

    method Leave(mp: nat, ghost before: seq<Entry>, ghost marked: seq<Entry>)
      requires Distinct(macros) && Entered(before, marked, mp) && Grown(marked, macros)
      modifies this`macros
      ensures Distinct(macros) && Grown(before, macros)
    {
      Unmarked(before, marked, macros, |before| - mp, |macros| - mp);
      macros := macros[|macros| - mp := macros[|macros| - mp].(mark := false)];
    }

    /** How far doexp has come: up to rp, with `acc` added to the output. */
    ghost predicate Going(to: Str, from: string, rp: nat, m: map<string, string>, makes: set<string>,
                          active: set<string>, acc: string, mk: bool, macros0: seq<Entry>, out: string, exp0: bool)
      reads this, to, to.text
    {
      && to.Valid() && to.pos < to.len && Grown(macros0, macros) && TableOk(macros, m, makes, active)
      && to.Output() == out + acc && expmake == (exp0 || mk)
      && Pending(m, makes, from, active, rp, acc, mk)
    }

    /** One turn of doexp's loop, which adds `piece`. */
    method Turn(to: Str, from: string, start: nat, ghost m: map<string, string>, ghost makes: set<string>,
                ghost active: set<string>,
                ghost acc: string, ghost mk: bool) returns (ok: bool, rp: nat, ghost piece: string, ghost saw: bool)
      requires start < |from| && to.Valid() && to.pos < to.len && TableOk(macros, m, makes, active)
      requires Pending(m, makes, from, active, start, acc, mk)
      modifies this`macros, this`expmake, to, to.text
      ensures to.text == old(to.text) || fresh(to.text)
      ensures !ok ==> Expand(m, makes, from, active).Recursive?
      ensures ok ==>
        && start < rp && to.Valid() && to.pos < to.len && Grown(old(macros), macros)
          && TableOk(macros, m, makes, active)
        && to.Output() == old(to.Output()) + piece && expmake == (old(expmake) || saw)
        && Pending(m, makes, from, active, rp, acc + piece, mk || saw)
      decreases m.Keys - active, |from|, 1
    {
      ok, rp, piece, saw := true, start, "", false;
      if from[rp] != '$' {
        PlainChar(m, makes, from, active, rp, acc, mk);
        to.Put(from[rp]);
        piece := [from[rp]];
        rp := rp + 1;
      } else if rp + 1 == |from| {
        LoneDollar(m, makes, from, active, rp, acc, mk);
        to.Put('$');
        piece := "$";
        rp := rp + 1;
      } else {
        var name;
        name, rp := ReadName(from, start + 1);
        MacroDone(m, makes, from, active, start, acc, mk, name, rp);
        ok := DoMacro(to, name, m, makes, active, |from|);
        if !ok {
          return;
        }
        StillTable(old(macros), macros, m, makes, active);
        ghost var r := Expand(m, makes, ValueOf(m, name), active + {name});
        piece, saw := r.text, name in makes || r.make;
      }
      to.Grow();
    }

    method Step(to: Str, from: string, start: nat, ghost m: map<string, string>, ghost makes: set<string>,
                ghost active: set<string>, ghost acc: string, ghost mk: bool, ghost macros0: seq<Entry>,
                ghost out: string, ghost exp0: bool)
      returns (ok: bool, rp: nat, ghost acc': string, ghost mk': bool)
      requires start < |from| && Going(to, from, start, m, makes, active, acc, mk, macros0, out, exp0)
      modifies this`macros, this`expmake, to, to.text
      ensures to.text == old(to.text) || fresh(to.text)
      ensures !ok ==> Expand(m, makes, from, active).Recursive?
      ensures ok ==> start < rp && Going(to, from, rp, m, makes, active, acc', mk', macros0, out, exp0)
      decreases m.Keys - active, |from|, 2
    {
      ghost var piece, saw, before := "", false, macros;
      ok, rp, piece, saw := Turn(to, from, start, m, makes, active, acc, mk);
      acc', mk' := acc + piece, mk || saw;
      if ok {
        GrownTwice(macros0, before, macros);
        Regroup(out, acc, piece);
      }
    }

    /** doexp's loop. */
    method DoAll(to: Str, from: string, ghost m: map<string, string>, ghost makes: set<string>,
                 ghost active: set<string>, ghost macros0: seq<Entry>, ghost out: string, ghost exp0: bool)
      returns (ok: bool, ghost acc: string, ghost mk: bool)
      requires Going(to, from, 0, m, makes, active, "", false, macros0, out, exp0)
      modifies this`macros, this`expmake, to, to.text
      ensures to.text == old(to.text) || fresh(to.text)
      ensures !ok ==> Expand(m, makes, from, active).Recursive?
      ensures ok ==> Going(to, from, |from|, m, makes, active, acc, mk, macros0, out, exp0)
      decreases m.Keys - active, |from|, 3
    {
      var rp := 0;
      acc, mk := "", false;
      while rp < |from|
        invariant rp <= |from| && (to.text == old(to.text) || fresh(to.text))
        invariant Going(to, from, rp, m, makes, active, acc, mk, macros0, out, exp0)
      {
        ok, rp, acc, mk := Step(to, from, rp, m, makes, active, acc, mk, macros0, out, exp0);
        if !ok {
          return;
        }
      }
      ok := true;
    }

    /** doexp: the expansion of `from` is added to the output; false is the fatal error for a
        macro that contains itself. */
    method Doexp(to: Str, from: string, ghost m: map<string, string>, ghost makes: set<string>,
                 ghost active: set<string>) returns (ok: bool)
      requires Distinct(macros) && to.Valid() && to.pos < to.len && Extends(m, Table(macros))
      requires makes == Makes(macros) && active == Marked(macros)
      modifies this`macros, this`expmake, to, to.text
      ensures to.text == old(to.text) || fresh(to.text)
      ensures ok <==> Expand(m, makes, from, active).Text?
      ensures ok ==>
        var r := Expand(m, makes, from, active);
        && Distinct(macros) && Grown(old(macros), macros) && to.Valid() && to.pos < to.len
        && to.Output() == old(to.Output()) + r.text && to.text[to.pos] == '\0' && expmake == (old(expmake) || r.make)
      decreases m.Keys - active, |from|, 4
    {
      ghost var macros0, out, exp0 := macros, to.Output(), expmake;
      PendingStart(m, makes, from, active);
      ghost var acc, mk;
      ok, acc, mk := DoAll(to, from, m, makes, active, macros0, out, exp0);
      if ok {
        PendingDone(m, makes, from, active, |from|, acc, mk);
        to.text[to.pos] := '\0';
      }
    }

    /** One reference in doexp: the macro is marked while its value is expanded. */
    method DoMacro(to: Str, name: string, ghost m: map<string, string>, ghost makes: set<string>,
                   ghost active: set<string>, ghost size: nat) returns (ok: bool)
      requires Distinct(macros) && to.Valid() && to.pos < to.len && Extends(m, Table(macros)) && 0 < size
      requires makes == Makes(macros) && active == Marked(macros)
      modifies this`macros, this`expmake, to, to.text
      ensures to.text == old(to.text) || fresh(to.text)
      ensures ok <==> name !in active && Expand(m, makes, ValueOf(m, name), active + {name}).Text?
      ensures ok ==>
        var r := Expand(m, makes, ValueOf(m, name), active + {name});
        && Distinct(macros) && Grown(old(macros), macros) && to.Valid() && to.pos < to.len
        && to.Output() == old(to.Output()) + r.text && expmake == (old(expmake) || name in makes || r.make)
      decreases m.Keys - active, size, 0
    {
      var mp, val;
      ghost var before;
      ok, mp, val, before := Enter(name, m, makes, active);
      if ok {
        ghost var marked := macros;
        assert name !in m ==> m.Keys - (active + {name}) == m.Keys - active;
        ok := Doexp(to, val, m, makes, active + {name});
        if ok {
          Leave(mp, before, marked);
          GrownTwice(old(macros), before, macros);
        }
      }
    }

    method ReadString(text: array<char>) returns (s: string)
      requires '\0' in text[..]
      ensures IsCString(text[..], s)
    {
      var n := 0;
      while text[n] != '\0'
        invariant 0 <= n < text.Length && '\0' !in text[..n]
        decreases text.Length - n
      {
        n := n + 1;
      }
      s := text[..n];
    }

    /** expand: the string s that was in strs is replaced by its expansion. */
    method ExpandStr(strs: Str) returns (ok: bool, s: string)
      requires Distinct(macros) && Marked(macros) == {} && strs.Valid() && '\0' in strs.text[..]
      modifies this`macros, this`expmake, strs, strs.text
      ensures IsCString(old(strs.text[..]), s)
      ensures var r := Expand(Table(old(macros)), Makes(old(macros)), s, {});
              && (ok <==> r.Text?)
              && (ok ==> Distinct(macros) && Grown(old(macros), macros) && strs.Valid() && strs.pos < strs.len
                         && strs.Output() == r.text && strs.text[strs.pos] == '\0'
                           && expmake == (old(expmake) || r.make))
    {
      s := ReadString(strs.text);
      strs.pos := 0;
      ghost var m, makes := Table(macros), Makes(macros);
      ok := Doexp(strs, s, m, makes, {});
    }
  }
}
