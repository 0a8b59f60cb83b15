/** Path names (kern/fs.c): splitting them, the inode cache with its reference counts, and
    the walk from inode to inode. */
module PathWalk {
  import opened Blocks
  import opened Directories
  import opened Options

  const SLASH: Byte := 47
  const ROOTDEV: nat := 1
  const ROOTINO: nat := 1
  const T_DIR: nat := 1

  // ----- path elements -----

  /** The maximal slash-free stretches of a path, one byte at a time; `cur` is the stretch
      being read. */
  function Elements(path: seq<Byte>, cur: seq<Byte>): (r: seq<seq<Byte>>)
  {
    if path == [] then (if cur == [] then [] else [cur])
    else if path[0] == SLASH then (if cur == [] then [] else [cur]) + Elements(path[1..], [])
    else Elements(path[1..], cur + [path[0]])
  }

  lemma {:induction false} SkipSlashes(path: seq<Byte>, k: nat)
    requires k <= |path| && forall i :: 0 <= i < k ==> path[i] == SLASH
    ensures Elements(path, []) == Elements(path[k..], [])
  {
    if k > 0 {
      SkipSlashes(path[1..], k - 1);
      assert path[1..][k - 1..] == path[k..];
      assert [] + Elements(path[1..], []) == Elements(path[1..], []);
    } else {
      assert path[0..] == path;
    }
  }

  lemma {:induction false} TakeElement(path: seq<Byte>, k: nat, cur: seq<Byte>)
    requires k <= |path| && forall i :: 0 <= i < k ==> path[i] != SLASH
    requires k == |path| || path[k] == SLASH
    requires cur + path[..k] != []
    ensures Elements(path, cur) == [cur + path[..k]] + Elements(path[k..], [])
  {
    if k > 0 {
      assert path[1..][..k - 1] == path[..k][1..];
      assert (cur + [path[0]]) + path[1..][..k - 1] == cur + path[..k];
      TakeElement(path[1..], k - 1, cur + [path[0]]);
      assert path[1..][k - 1..] == path[k..];
    } else {
      assert path[0..] == path && cur + path[..0] == cur;
      if path == [] {
        assert Elements(path, cur) == [cur] + [];
      } else {
        assert Elements(path, []) == [] + Elements(path[1..], []);
      }
    }
  }

  lemma FirstElement(q: seq<Byte>, m: nat, n: nat)
    requires 0 < m <= n <= |q|
    requires forall i :: 0 <= i < m ==> q[i] != SLASH
    requires forall i :: m <= i < n ==> q[i] == SLASH
    requires m == |q| || q[m] == SLASH
    ensures Elements(q, []) == [q[..m]] + Elements(q[n..], [])
  {
    assert [] + q[..m] == q[..m];
    TakeElement(q, m, []);
    SkipSlashes(q[m..], n - m);
    assert q[m..][n - m..] == q[n..];
  }

  lemma {:induction false} ElementsNonEmpty(path: seq<Byte>, cur: seq<Byte>)
    requires cur != []
    ensures Elements(path, cur) != []
  {
    if path != [] && path[0] != SLASH {
      ElementsNonEmpty(path[1..], cur + [path[0]]);
    }
  }

  /** A path without leading slashes has no element only when it is empty. */
  lemma RestEmpty(path: seq<Byte>)
    requires path == [] || path[0] != SLASH
    ensures Elements(path, []) == [] <==> path == []
  {
    if path != [] {
      assert [] + [path[0]] == [path[0]];
      ElementsNonEmpty(path[1..], [path[0]]);
    }
  }

  /** Slashes up to a, an element up to b, slashes up to c: that is the first element. */
  lemma OneElement(path: seq<Byte>, a: nat, b: nat, c: nat)
    requires a < b <= c <= |path|
    requires forall i :: 0 <= i < a ==> path[i] == SLASH
    requires forall i :: a <= i < b ==> path[i] != SLASH
    requires forall i :: b <= i < c ==> path[i] == SLASH
    requires b == |path| || path[b] == SLASH
    requires c == |path| || path[c] != SLASH
    ensures Elements(path, []) == [path[a..b]] + Elements(path[c..], [])
    ensures Elements(path[c..], []) == [] <==> path[c..] == []
  {
    SkipSlashes(path, a);
    FirstElement(path[a..], b - a, c - a);
    assert path[a..][..b - a] == path[a..b] && path[a..][c - a..] == path[c..];
    RestEmpty(path[c..]);
  }

  lemma NoElement(path: seq<Byte>)
    requires forall i :: 0 <= i < |path| ==> path[i] == SLASH
    ensures Elements(path, []) == []
  {
    SkipSlashes(path, |path|);
    assert path[|path|..] == [];
  }

  /** skipelem: the first element, cut to DIRSIZ, and the path after it without leading
      slashes; None when there is no element. */
  method Skipelem(path: seq<Byte>) returns (r: Option<(seq<Byte>, seq<Byte>)>)
    ensures r.None? <==> Elements(path, []) == []
    ensures r.Some? ==>
      && |Elements(path, [])| > 0
      && r.value.1 == Cut(Elements(path, [])[0])
      && Elements(r.value.0, []) == Elements(path, [])[1..]
      && (r.value.0 == [] <==> |Elements(path, [])| == 1)
      && |r.value.0| < |path|
  {
    var a := 0;
    while a < |path| && path[a] == SLASH
      invariant 0 <= a <= |path|
      invariant forall i :: 0 <= i < a ==> path[i] == SLASH
    {
      a := a + 1;
    }
    if a == |path| {
      NoElement(path);
      return None;
    }
    var b := a;
    while b < |path| && path[b] != SLASH
      invariant a <= b <= |path|
      invariant forall i :: a <= i < b ==> path[i] != SLASH
    {
      b := b + 1;
    }
    var len := b - a;
    var name := if len >= DIRSIZ then path[a..a + DIRSIZ] else path[a..a + len];
    assert name == Cut(path[a..b]);
    var c := b;
    while c < |path| && path[c] == SLASH
      invariant b <= c <= |path|
      invariant forall i :: b <= i < c ==> path[i] == SLASH
    {
      c := c + 1;
    }
    OneElement(path, a, b, c);
    return Some((path[c..], name));
  }

  // ----- the file tree and what a path means in it -----

  datatype Key = Key(dev: nat, inum: nat)

  /** An inode on disk: type (0 is free), link count, contents. */
  datatype Node = Node(typ: nat, nlink: nat, content: seq<Byte>)

  type Tree = map<Key, Node>

  /** Following elements from inode k; with `parent`, stopping one element early. */
  function Resolve(tree: Tree, k: Key, elems: seq<seq<Byte>>, parent: bool): (r: Option<Key>)
    decreases |elems|
  {
    if elems == [] then (if parent then None else Some(k))
    else if k !in tree || tree[k].typ != T_DIR then None
    else if parent && |elems| == 1 then Some(k)
    else
      var inum := Lookup(tree[k].content, Cut(elems[0]));
      if inum == 0 then None else Resolve(tree, Key(k.dev, inum), elems[1..], parent)
  }

  /** namei is nameiparent and then one lookup: whatever the path, the last element is looked up in
      the directory that the elements before it lead to. */
  lemma {:induction false} LastLookup(tree: Tree, k: Key, elems: seq<seq<Byte>>)
    requires elems != []
    ensures var dir := Resolve(tree, k, elems, true);
            && (dir.Some? ==>
                  && dir.value in tree && tree[dir.value].typ == T_DIR
                  && dir == Resolve(tree, k, elems[..|elems| - 1], false))
            && (dir.None? ==> Resolve(tree, k, elems, false).None?)
            && (dir.Some? ==>
                  var inum := Lookup(tree[dir.value].content, Cut(elems[|elems| - 1]));
                  Resolve(tree, k, elems, false) == if inum == 0 then None else Some(Key(dir.value.dev, inum)))
    decreases |elems|
  {
    if k in tree && tree[k].typ == T_DIR {
      var inum := Lookup(tree[k].content, Cut(elems[0]));
      var next := Key(k.dev, inum);
      if |elems| == 1 {
        assert elems[..0] == [] && elems[1..] == [];
      } else if inum != 0 {
        var rest := elems[1..];
        LastLookup(tree, next, rest);
        var front := elems[..|elems| - 1];
        assert front[1..] == rest[..|rest| - 1] && front[0] == elems[0];
      }
    }
  }

  // ----- reference counts -----

  /** How many references there are to each inode that has any. */
  type Refs = map<Key, nat>

  function Plus(refs: Refs, k: Key): (r: Refs)
  {
    refs[k := (if k in refs then refs[k] else 0) + 1]
  }

  function Minus(refs: Refs, k: Key): (r: Refs)
    requires k in refs && refs[k] > 0
  {
    if refs[k] == 1 then refs - {k} else refs[k := refs[k] - 1]
  }

  lemma PlusMinus(refs: Refs, k: Key)
    requires k in refs ==> refs[k] > 0
    ensures Minus(Plus(refs, k), k) == refs
  {
  }

  /** Taking the next reference before dropping the last one comes to the same. */
  lemma StepRefs(refs: Refs, k: Key, next: Key)
    requires k in refs ==> refs[k] > 0
    requires next in refs ==> refs[next] > 0
    ensures Minus(Plus(Plus(refs, k), next), k) == Plus(refs, next)
  {
  }

  /** An entry of icache.inode[]. */
  datatype Entry = Entry(key: Key, ref: nat, busy: bool, valid: bool, typ: nat, nlink: nat)

  ghost predicate EntryOk(ents: seq<Entry>, tree: Tree, refs: Refs, i: int)
    requires 0 <= i < |ents|
  {
    var e := ents[i];
    && (e.ref > 0 ==> e.key in refs && refs[e.key] == e.ref)
    && (e.ref == 0 ==> !e.busy)
    && (e.ref > 0 && e.valid ==> e.key in tree && 0 != e.typ == tree[e.key].typ && e.nlink == tree[e.key].nlink)
  }

  ghost predicate CachedAs(ents: seq<Entry>, k: Key, i: int)
  {
    0 <= i < |ents| && ents[i].ref > 0 && ents[i].key == k
  }

  ghost predicate KeyOk(ents: seq<Entry>, refs: Refs, k: Key)
  {
    k in refs ==> refs[k] > 0 && exists i :: CachedAs(ents, k, i)
  }

  /** At most one entry in use for an inode. */
  ghost predicate Apart(ents: seq<Entry>, i: int, j: int)
    requires 0 <= i < |ents| && 0 <= j < |ents|
  {
    i != j && ents[i].ref > 0 && ents[j].ref > 0 ==> ents[i].key != ents[j].key
  }

  ghost predicate CacheOk(ents: seq<Entry>, tree: Tree, refs: Refs)
  {
    && (forall i :: 0 <= i < |ents| ==> EntryOk(ents, tree, refs, i))
    && (forall k :: KeyOk(ents, refs, k))
    && (forall i, j :: 0 <= i < |ents| && 0 <= j < |ents| ==> Apart(ents, i, j))
  }

  /** Changing one entry, and the references to its inode, keeps the cache in order. */
  lemma EntryChanged(ents: seq<Entry>, tree: Tree, refs: Refs, i: nat, e: Entry, tree': Tree, refs': Refs)
    requires CacheOk(ents, tree, refs) && i < |ents|
    requires ents[i].ref > 0 ==> e.key == ents[i].key
    requires ents[i].ref == 0 ==> e.key !in refs
    requires e.ref > 0 ==> e.key in refs' && refs'[e.key] == e.ref
    requires e.ref == 0 ==> e.key !in refs' && !e.busy
    requires e.ref > 0 && e.valid ==> e.key in tree' && 0 != e.typ == tree'[e.key].typ && e.nlink == tree'[e.key].nlink
    requires forall k :: k != e.key ==>
      (k in refs' <==> k in refs) && (k in refs ==> refs'[k] == refs[k])
      && (k in tree' <==> k in tree) && (k in tree ==> tree'[k] == tree[k])
    ensures CacheOk(ents[i := e], tree', refs')
  {
    var u := ents[i := e];
    assert EntryOk(ents, tree, refs, i);
    forall j | 0 <= j < |u| ensures EntryOk(u, tree', refs', j) {
      assert EntryOk(ents, tree, refs, j);
      assert Apart(ents, i, j);
    }
    forall j, l | 0 <= j < |u| && 0 <= l < |u| ensures Apart(u, j, l) {
      assert Apart(ents, j, l) && EntryOk(ents, tree, refs, j) && EntryOk(ents, tree, refs, l);
    }
    forall k ensures KeyOk(u, refs', k) {
      assert KeyOk(ents, refs, k);
      if k == e.key {
        if e.ref > 0 { assert CachedAs(u, k, i); }
      } else if k in refs {
        var j :| CachedAs(ents, k, j);
        assert CachedAs(u, k, j);
      }
    }
  }

  // ----- every entry is in use exactly when there are as many inodes in use as entries -----

  ghost function KeysUpTo(ents: seq<Entry>, n: nat): set<Key>
    requires n <= |ents|
  {
    set i | 0 <= i < n && ents[i].ref > 0 :: ents[i].key
  }

  ghost function UsedUpTo(ents: seq<Entry>, n: nat): (c: nat)
    requires n <= |ents|
    ensures c <= n
  {
    if n == 0 then 0 else UsedUpTo(ents, n - 1) + (if ents[n - 1].ref > 0 then 1 else 0)
  }

  lemma KeysNext(ents: seq<Entry>, m: nat, n: nat)
    requires n == m + 1 <= |ents| && forall i, j :: 0 <= i < |ents| && 0 <= j < |ents| ==> Apart(ents, i, j)
    ensures KeysUpTo(ents, n) == KeysUpTo(ents, m) + (if ents[m].ref > 0 then {ents[m].key} else {})
    ensures ents[m].ref > 0 ==> ents[m].key !in KeysUpTo(ents, m)
  {
    forall i | 0 <= i < m && ents[i].ref > 0 && ents[m].ref > 0 ensures ents[i].key != ents[m].key {
      assert Apart(ents, i, m);
    }
  }

  lemma {:induction false} CountUsed(ents: seq<Entry>, n: nat)
    requires n <= |ents| && forall i, j :: 0 <= i < |ents| && 0 <= j < |ents| ==> Apart(ents, i, j)
    ensures |KeysUpTo(ents, n)| == UsedUpTo(ents, n)
    ensures UsedUpTo(ents, n) == n <==> forall i :: 0 <= i < n ==> ents[i].ref > 0
  {
    if n == 0 {
      assert KeysUpTo(ents, 0) == {};
    } else {
      var m := n - 1;
      CountUsed(ents, m);
      KeysNext(ents, m, n);
    }
  }

  lemma AllInUse(ents: seq<Entry>, tree: Tree, refs: Refs)
    requires CacheOk(ents, tree, refs)
    ensures |refs| <= |ents|
    ensures |refs| == |ents| <==> forall i :: 0 <= i < |ents| ==> ents[i].ref > 0
  {
    CountUsed(ents, |ents|);
    forall k ensures k in KeysUpTo(ents, |ents|) <==> k in refs {
      assert KeyOk(ents, refs, k);
      if k in KeysUpTo(ents, |ents|) {
        var i :| 0 <= i < |ents| && ents[i].ref > 0 && ents[i].key == k;
        assert EntryOk(ents, tree, refs, i);
      }
      if k in refs {
        var i :| CachedAs(ents, k, i);
      }
    }
    assert KeysUpTo(ents, |ents|) == refs.Keys;
    assert |refs| == |refs.Keys|;
  }

  // ----- when a walk gets through -----

  /** The tree when the last reference to inode k, which has been looked at, is dropped: without
      links it is freed.  `held` are all other references. */
  function LeftTree(tree: Tree, held: Refs, k: Key): Tree
  {
    if k in tree && k !in held && tree[k].nlink == 0 then tree[k := Node(0, 0, [])] else tree
  }

  /** Is there a cache entry for inode k, n being the number of entries? */
  predicate EntryFor(refs: Refs, n: nat, k: Key)
  {
    k in refs || |refs| < n
  }

  /** At k the walk looks for `name`; it gets on if k is in use and there is an entry for the next. */
  predicate TurnOk(tree: Tree, held: Refs, n: nat, k: Key, name: seq<Byte>, stop: bool)
  {
    && k in tree && tree[k].typ != 0
    && (tree[k].typ == T_DIR && !stop && Lookup(tree[k].content, name) != 0 ==>
          EntryFor(Plus(held, k), n, Key(k.dev, Lookup(tree[k].content, name))))
  }

  /** Does the walk from k along elems end without a panic?  Every inode on the way must be in use
      when it is reached, and there must be an entry for the next one.  An inode without links
      that nobody else refers to is freed as soon as the walk leaves it. */
  predicate CanWalk(tree: Tree, held: Refs, n: nat, k: Key, elems: seq<seq<Byte>>, parent: bool)
    decreases |elems|
  {
    elems != [] ==>
      var name, stop := Cut(elems[0]), parent && |elems| == 1;
      && TurnOk(tree, held, n, k, name, stop)
      && (tree[k].typ == T_DIR && !stop && Lookup(tree[k].content, name) != 0 ==>
            var nk := Key(k.dev, Lookup(tree[k].content, name));
            CanWalk(if nk == k then tree else LeftTree(tree, held, k), held, n, nk, elems[1..], parent))
  }

  /** Some unlinked inodes that nobody refers to have been freed. */
  ghost predicate Thinned(tree: Tree, tree': Tree, held: Refs)
  {
    && tree'.Keys == tree.Keys
    && forall k :: k in tree && tree'[k] != tree[k] ==> tree[k].nlink == 0 && k !in held && tree'[k] == Node(0, 0, [])
  }

  lemma ThinnedMore(tree: Tree, tree': Tree, held: Refs, k: Key)
    requires Thinned(tree, tree', held)
    ensures Thinned(tree, LeftTree(tree', held, k), held)
  {
  }

  /** What namex comes to: an inode with a reference for the caller, nothing, or a panic
      (no inode cache entry left, or a directory entry that names a free inode). */
  datatype Walk = Found(i: nat) | Missing | Panic

  datatype LockResult = Locked | Sleeps | NoType

  /** One turn of namex's loop ends the walk or goes on at the next inode. */
  datatype Turn = Go(next: nat) | Stop(w: Walk)

  /** What a turn at inode k should find; nk is the inode it goes on to. */
  ghost predicate TurnAnswer(tree: Tree, k: Key, name: seq<Byte>, last: bool, parent: bool, t: Turn, nk: Key)
  {
    match t
    case Go(_) =>
      && k in tree && tree[k].typ == T_DIR && !(parent && last)
      && Lookup(tree[k].content, name) != 0 && nk == Key(k.dev, Lookup(tree[k].content, name))
    case Stop(Missing) =>
      k !in tree || tree[k].typ != T_DIR || (!(parent && last) && Lookup(tree[k].content, name) == 0)
    case Stop(Found(_)) => k in tree && tree[k].typ == T_DIR && parent && last
    case Stop(Panic) => false
  }

  const ROOT: Key := Key(ROOTDEV, ROOTINO)

  predicate Absolute(path: seq<Byte>)
  {
    path != [] && path[0] == SLASH
  }

  /** The entries of inodes that are referred to by `held` are still at their places. */
  ghost predicate StillThere(ents: seq<Entry>, ents': seq<Entry>, held: Refs)
  {
    && |ents'| == |ents|
    && forall i :: 0 <= i < |ents| && ents[i].ref > 0 && ents[i].key in held ==>
      ents'[i].ref > 0 && ents'[i].key == ents[i].key
  }

  lemma UsedHeld(ents: seq<Entry>, tree: Tree, refs: Refs)
    requires CacheOk(ents, tree, refs)
    ensures forall i :: 0 <= i < |ents| && ents[i].ref > 0 ==> ents[i].key in refs
  {
    forall i | 0 <= i < |ents| && ents[i].ref > 0 ensures ents[i].key in refs {
      assert EntryOk(ents, tree, refs, i);
    }
  }

  lemma StillTwice(ents: seq<Entry>, ents1: seq<Entry>, ents2: seq<Entry>, held: Refs)
    requires StillThere(ents, ents1, held) && StillThere(ents1, ents2, held)
    ensures StillThere(ents, ents2, held)
  {
  }

  /** One turn on the tree as it is, against the tree at the start: an inode that is in use now is
      what it was. */
  lemma WalkGoes(tree0: Tree, tree: Tree, held: Refs, n: nat, k: Key, elems: seq<seq<Byte>>, parent: bool, t: Turn,
                 nk: Key)
    requires Thinned(tree0, tree, held) && elems != [] && t.Go?
    requires TurnOk(tree, held, n, k, Cut(elems[0]), parent && |elems| == 1)
    requires TurnAnswer(tree, k, Cut(elems[0]), |elems| == 1, parent, t, nk)
    ensures Resolve(tree0, k, elems, parent) == Resolve(tree0, nk, elems[1..], parent)
    ensures CanWalk(tree, held, n, k, elems, parent)
            == CanWalk(if nk == k then tree else LeftTree(tree, held, k), held, n, nk, elems[1..], parent)
  {
  }

  lemma WalkStops(tree0: Tree, tree: Tree, held: Refs, n: nat, k: Key, elems: seq<seq<Byte>>, parent: bool, t: Turn)
    requires Thinned(tree0, tree, held) && elems != [] && t.Stop?
    requires t == Stop(Panic) <==> !TurnOk(tree, held, n, k, Cut(elems[0]), parent && |elems| == 1)
    requires t != Stop(Panic) ==> TurnAnswer(tree, k, Cut(elems[0]), |elems| == 1, parent, t, k)
    ensures CanWalk(tree, held, n, k, elems, parent) <==> t != Stop(Panic)
    ensures t == Stop(Missing) ==> Resolve(tree0, k, elems, parent).None?
    ensures t.w.Found? ==> Resolve(tree0, k, elems, parent) == Some(k)
  {
  }

  class Icache {
    const ent: array<Entry>
    var tree: Tree
    ghost var refs: Refs

    ghost predicate Valid()
      reads this, ent
    {
      CacheOk(ent[..], tree, refs)
    }

    /** No inode is locked. */
    ghost predicate Unlocked()
      reads this, ent
    {
      forall i :: 0 <= i < ent.Length ==> !ent[i].busy
    }

    constructor (n: nat, tree: Tree)
      ensures Valid() && Unlocked() && refs == map[] && this.tree == tree && fresh(ent) && ent.Length == n
    {
      ent := new Entry[n](_ => Entry(Key(0, 0), 0, false, false, 0, 0));
      this.tree := tree;
      refs := map[];
    }

    /** iget: one more reference, to the entry in use for the inode if there is one, else to
        the first free entry; None is the panic for want of entries. */
    method Iget(k: Key) returns (r: Option<nat>)
      requires Valid()
      modifies this`refs, ent
      ensures Valid()
      ensures r.None? ==> ent[..] == old(ent[..]) && refs == old(refs)
      ensures r.None? <==> !EntryFor(old(refs), ent.Length, k)
      ensures r.Some? ==>
        && r.value < ent.Length && refs == Plus(old(refs), k)
        && ent[..] == old(ent[..])[r.value := ent[r.value]]
        && ent[r.value].key == k
        && (k in old(refs) ==> CachedAs(old(ent[..]), k, r.value))
        && (k !in old(refs) ==> old(ent[r.value].ref) == 0 && forall j :: 0 <= j < r.value ==> old(ent[j].ref) > 0)
        && ent[r.value] == if k in old(refs) then old(ent[r.value]).(ref := old(ent[r.value].ref) + 1)
                           else Entry(k, 1, false, false, old(ent[r.value].typ), old(ent[r.value].nlink))
    {
      ghost var was := ent[..];
      assert KeyOk(was, refs, k);
      AllInUse(was, tree, refs);
      var empty: Option<nat> := None;
      var i := 0;
      while i < ent.Length
        invariant 0 <= i <= ent.Length && ent[..] == was && refs == old(refs)
        invariant forall j :: 0 <= j < i ==> !CachedAs(was, k, j)
        invariant empty.None? ==> forall j :: 0 <= j < i ==> was[j].ref > 0
        invariant empty.Some? ==> empty.value < i && was[empty.value].ref == 0
        invariant empty.Some? ==> forall j :: 0 <= j < empty.value ==> was[j].ref > 0
      {
        if ent[i].ref > 0 && ent[i].key == k {
          assert EntryOk(was, tree, refs, i);
          EntryChanged(was, tree, refs, i, was[i].(ref := was[i].ref + 1), tree, Plus(refs, k));
          ent[i] := ent[i].(ref := ent[i].ref + 1);
          assert ent[..] == was[i := was[i].(ref := was[i].ref + 1)];
          refs := Plus(refs, k);
          return Some(i);
        }
        if empty.None? && ent[i].ref == 0 {
          empty := Some(i);
        }
        i := i + 1;
      }
      if empty.None? {
        return None;
      }
      var e := empty.value;
      ghost var new' := Entry(k, 1, false, false, was[e].typ, was[e].nlink);
      EntryChanged(was, tree, refs, e, new', tree, Plus(refs, k));
      ent[e] := Entry(k, 1, false, false, ent[e].typ, ent[e].nlink);
      assert ent[..] == was[e := new'];
      refs := Plus(refs, k);
      return Some(e);
    }

    /** idup: one more reference. */
    method Idup(i: nat)
      requires Valid() && i < ent.Length && ent[i].ref > 0
      modifies this`refs, ent
      ensures Valid() && refs == Plus(old(refs), ent[i].key)
      ensures ent[..] == old(ent[..])[i := old(ent[i]).(ref := old(ent[i].ref) + 1)]
    {
      ghost var was := ent[..];
      assert EntryOk(was, tree, refs, i);
      EntryChanged(was, tree, refs, i, was[i].(ref := was[i].ref + 1), tree, Plus(refs, was[i].key));
      ent[i] := ent[i].(ref := ent[i].ref + 1);
      assert ent[..] == was[i := was[i].(ref := was[i].ref + 1)];
      refs := Plus(refs, ent[i].key);
    }

    /** ilock: locked, and filled from disk if need be; or to sleep while another has the lock; or
        the panic for a free inode. */
    method Ilock(i: nat) returns (r: LockResult)
      requires Valid() && i < ent.Length && ent[i].ref > 0
      modifies ent
      ensures r.Sleeps? <==> old(ent[i].busy)
      ensures r.NoType? <==> !old(ent[i].busy) && !(old(ent[i].key) in tree && tree[old(ent[i].key)].typ != 0)
      ensures !r.Locked? ==> ent[..] == old(ent[..])
      ensures r.Locked? ==>
        && Valid() && ent[i].key in tree && tree[ent[i].key].typ == ent[i].typ
        && tree[ent[i].key].nlink == ent[i].nlink
      ensures r.Locked? ==> ent[i] == Entry(old(ent[i].key), old(ent[i].ref), true, true, ent[i].typ, ent[i].nlink)
      ensures r.Locked? ==> ent[..] == old(ent[..])[i := ent[i]]
    {
      ghost var was := ent[..];
      assert EntryOk(was, tree, refs, i);
      if ent[i].busy {
        return Sleeps;
      }
      if ent[i].valid {
        EntryChanged(was, tree, refs, i, was[i].(busy := true), tree, refs);
        ent[i] := ent[i].(busy := true);
        assert ent[..] == was[i := ent[i]];
        return Locked;
      }
      if ent[i].key !in tree || tree[ent[i].key].typ == 0 {
        return NoType;
      }
      var node := tree[ent[i].key];
      ent[i] := ent[i].(busy := true, typ := node.typ, nlink := node.nlink, valid := true);
      EntryChanged(was, tree, refs, i, ent[i], tree, refs);
      assert ent[..] == was[i := ent[i]];
      return Locked;
    }

    method Iunlock(i: nat)
      requires Valid() && i < ent.Length && ent[i].busy
      modifies ent
      ensures Valid() && ent[..] == old(ent[..])[i := old(ent[i]).(busy := false)]
    {
      ghost var was := ent[..];
      assert EntryOk(was, tree, refs, i);
      EntryChanged(was, tree, refs, i, was[i].(busy := false), tree, refs);
      ent[i] := ent[i].(busy := false);
      assert ent[..] == was[i := ent[i]];
    }

    /** iput: one reference less.  The last reference to an inode without links frees the inode
        and its contents on disk. */
    method Iput(i: nat)
      requires Valid() && i < ent.Length && ent[i].ref > 0 && (ent[i].busy ==> ent[i].ref > 1)
      modifies this`refs, this`tree, ent
      ensures Valid() && old(ent[i].key) in old(refs) && old(refs)[old(ent[i].key)] > 0
      ensures refs == Minus(old(refs), old(ent[i].key))
      ensures ent[..] == old(ent[..])[i := ent[i]] && ent[i].ref == old(ent[i].ref) - 1
        && ent[i].busy == old(ent[i].busy)
      ensures ent[i].key == old(ent[i].key)
      ensures tree == if old(ent[i].ref) == 1 && old(ent[i].valid) && old(ent[i].nlink) == 0
                      then old(tree)[old(ent[i].key) := Node(0, 0, [])] else old(tree)
    {
      ghost var was, refs0, tree0 := ent[..], refs, tree;
      assert EntryOk(was, tree, refs, i);
      if ent[i].ref == 1 && ent[i].valid && ent[i].nlink == 0 {
        tree := tree[ent[i].key := Node(0, 0, [])];
        ent[i] := ent[i].(typ := 0, busy := false, valid := false);
      }
      ent[i] := ent[i].(ref := ent[i].ref - 1);
      refs := Minus(refs, ent[i].key);
      EntryChanged(was, tree0, refs0, i, ent[i], tree, refs);
      assert ent[..] == was[i := ent[i]];
    }

    /** iunlockput. */
    method Iunlockput(i: nat)
      requires Valid() && i < ent.Length && ent[i].busy
      modifies this`refs, this`tree, ent
      ensures Valid() && old(ent[i].key) in old(refs) && old(refs)[old(ent[i].key)] > 0
      ensures refs == Minus(old(refs), old(ent[i].key))
      ensures forall j :: 0 <= j < ent.Length && j != i ==> ent[j] == old(ent[j])
      ensures ent[i].ref == old(ent[i].ref) - 1 && ent[i].key == old(ent[i].key) && !ent[i].busy
      ensures tree == if old(ent[i].ref) == 1 && old(ent[i].valid) && old(ent[i].nlink) == 0
                      then old(tree)[old(ent[i].key) := Node(0, 0, [])] else old(tree)
    {
      assert EntryOk(ent[..], tree, refs, i);
      Iunlock(i);
      Iput(i);
    }

    /** The last part of a turn: the reference moves on to the next inode. */
    method GetNext(ip: nat, inum: nat, ghost k: Key, ghost held: Refs) returns (r: Option<nat>)
      requires Valid() && ip < ent.Length && ent[ip].ref > 0 && ent[ip].busy && ent[ip].valid && ent[ip].key == k
      requires forall j :: 0 <= j < ent.Length && j != ip ==> !ent[j].busy
      requires refs == Plus(held, k) && forall k :: k in held ==> held[k] > 0
      modifies this`refs, this`tree, ent
      ensures r.None? <==> !EntryFor(Plus(held, k), ent.Length, Key(k.dev, inum))
      ensures r.Some? ==>
        var nk := Key(k.dev, inum);
        && Valid() && Unlocked() && r.value < ent.Length && ent[r.value].ref > 0 && ent[r.value].key == nk
        && refs == Plus(held, nk) && tree == (if nk == k then old(tree) else LeftTree(old(tree), held, k))
        && StillThere(old(ent[..]), ent[..], held)
    {
      ghost var nk, was := Key(k.dev, inum), ent[..];
      assert EntryOk(was, tree, refs, ip);
      r := Iget(Key(ent[ip].key.dev, inum));
      if r.Some? {
        StepRefs(held, k, nk);
        assert EntryOk(ent[..], tree, refs, ip) && EntryOk(ent[..], tree, refs, r.value);
        Iunlockput(ip);
      }
    }

    /** One turn of namex's loop at inode ip, of which this process holds one reference more
        than `held` says. */
    method Turn(ip: nat, name: seq<Byte>, last: bool, parent: bool, ghost held: Refs) returns (t: Turn)
      requires Valid() && Unlocked() && ip < ent.Length && ent[ip].ref > 0
      requires refs == Plus(held, ent[ip].key) && forall k :: k in held ==> held[k] > 0
      modifies this`refs, this`tree, ent
      ensures t == Stop(Panic) <==> !TurnOk(old(tree), held, ent.Length, old(ent[ip].key), name, parent && last)
      ensures t != Stop(Panic) ==> Valid() && Unlocked()
      ensures t.Go? ==> t.next < ent.Length && ent[t.next].ref > 0 && refs == Plus(held, ent[t.next].key)
      ensures t == Stop(Missing) ==> refs == held
      ensures t.Stop? && t.w.Found? ==>
        && t.w.i == ip && ent[ip].key == old(ent[ip].key) && refs == old(refs)
        && ent[ip].ref > 0
      ensures t != Stop(Panic) ==>
        TurnAnswer(old(tree), old(ent[ip].key), name, last, parent, t,
          if t.Go? then ent[t.next].key else old(ent[ip].key))
      ensures t != Stop(Panic) ==>
        tree == if (t.Go? && ent[t.next].key == old(ent[ip].key)) || (t.Stop? && t.w.Found?) then old(tree)
                else LeftTree(old(tree), held, old(ent[ip].key))
      ensures t != Stop(Panic) ==> StillThere(old(ent[..]), ent[..], held)
    {
      ghost var k, was, tree0 := ent[ip].key, ent[..], tree;
      assert EntryOk(was, tree, refs, ip);
      PlusMinus(held, k);
      var lock := Ilock(ip);
      if !lock.Locked? {
        return Stop(Panic);
      }
      assert EntryOk(ent[..], tree, refs, ip);
      if ent[ip].typ != T_DIR {
        Iunlockput(ip);
        return Stop(Missing);
      }
      if parent && last {
        Iunlock(ip);
        return Stop(Found(ip));
      }
      var inum := Lookup(tree[ent[ip].key].content, name);
      if inum == 0 {
        Iunlockput(ip);
        return Stop(Missing);
      }
      var next := GetNext(ip, inum, k, held);
      if next.None? {
        return Stop(Panic);
      }
      return Go(next.value);
    }

    /** Where namex starts: at the root, or at the current directory. */
    method Start(path: seq<Byte>, cwd: nat) returns (r: Option<nat>)
      requires Valid() && Unlocked() && cwd < ent.Length && ent[cwd].ref > 0
      modifies this`refs, ent
      ensures var start := if Absolute(path) then ROOT else old(ent[cwd].key);
              && (r.None? <==> !EntryFor(old(refs), ent.Length, start))
              && (r.Some? ==>
                && r.value < ent.Length && ent[r.value].ref > 0 && ent[r.value].key == start
                && refs == Plus(old(refs), start))
      ensures r.Some? ==> Valid() && Unlocked() && StillThere(old(ent[..]), ent[..], old(refs))
    {
      assert EntryOk(ent[..], tree, refs, cwd);
      if path != [] && path[0] == SLASH {
        r := Iget(ROOT);
      } else {
        Idup(cwd);
        return Some(cwd);
      }
    }

    /** nameiparent of a path without elements. */
    method DropLast(ip: nat, ghost tree0: Tree, ghost held: Refs)
      requires Valid() && Unlocked() && ip < ent.Length && ent[ip].ref > 0 && Thinned(tree0, tree, held)
      requires refs == Plus(held, ent[ip].key) && forall k :: k in held ==> held[k] > 0
      modifies this`refs, this`tree, ent
      ensures Valid() && Unlocked() && refs == held && Thinned(tree0, tree, held)
        && StillThere(old(ent[..]), ent[..], held)
    {
      assert EntryOk(ent[..], tree, refs, ip);
      PlusMinus(held, ent[ip].key);
      ThinnedMore(tree0, tree, held, ent[ip].key);
      Iput(ip);
    }

    /** The loop of namex. */
    method WalkFrom(ip0: nat, path: seq<Byte>, parent: bool, ghost held: Refs) returns (w: Walk)
      requires Valid() && Unlocked() && ip0 < ent.Length && ent[ip0].ref > 0
      requires refs == Plus(held, ent[ip0].key) && forall k :: k in held ==> held[k] > 0
      modifies this`refs, this`tree, ent
      ensures w.Panic? <==> !CanWalk(old(tree), held, ent.Length, old(ent[ip0].key), Elements(path, []), parent)
      ensures w.Found? ==> w.i < ent.Length && ent[w.i].ref > 0 && refs == Plus(held, ent[w.i].key)
      ensures w.Found? ==> Resolve(old(tree), old(ent[ip0].key), Elements(path, []), parent) == Some(ent[w.i].key)
      ensures w.Missing? ==> refs == held && Resolve(old(tree), old(ent[ip0].key), Elements(path, []), parent).None?
      ensures !w.Panic? ==>
        && Valid() && Unlocked() && Thinned(old(tree), tree, held)
        && StillThere(old(ent[..]), ent[..], held)
    {
      ghost var tree0, ents0, n := tree, ent[..], ent.Length;
      var ip: nat := ip0;
      ghost var elems := Elements(path, []);
      ghost var want := Resolve(tree0, ent[ip].key, elems, parent);
      ghost var can := CanWalk(tree0, held, n, ent[ip].key, elems, parent);
      var rest := path;
      while true
        invariant Valid() && Unlocked() && ip < ent.Length && ent[ip].ref > 0
        invariant refs == Plus(held, ent[ip].key) && StillThere(ents0, ent[..], held)
        invariant Thinned(tree0, tree, held) && elems == Elements(rest, [])
        invariant Resolve(tree0, ent[ip].key, elems, parent) == want
        invariant CanWalk(tree, held, n, ent[ip].key, elems, parent) == can
        decreases |rest|
      {
        var e := Skipelem(rest);
        if e.None? {
          break;
        }
        ghost var k, before, ents := ent[ip].key, tree, ent[..];
        var t := Turn(ip, e.value.1, e.value.0 == [], parent, held);
        ThinnedMore(tree0, before, held, k);
        if t.Stop? {
          WalkStops(tree0, before, held, n, k, elems, parent, t);
          if t != Stop(Panic) {
            StillTwice(ents0, ents, ent[..], held);
          }
          return t.w;
        }
        WalkGoes(tree0, before, held, n, k, elems, parent, t, ent[t.next].key);
        StillTwice(ents0, ents, ent[..], held);
        ip := t.next;
        rest := e.value.0;
        elems := elems[1..];
      }
      if parent {
        DropLast(ip, tree0, held);
        return Missing;
      }
      return Found(ip);
    }

    /** namex.  It panics exactly when there is no cache entry for an inode on the way, or such an
        inode is missing or free.  Otherwise it finds what `Resolve` says; there is one reference
        more to the inode returned and none elsewhere, no inode is left locked, entries in use
        stay where they are, and on disk only unlinked inodes without references have gone. */
    method Namex(path: seq<Byte>, parent: bool, cwd: nat) returns (w: Walk)
      requires Valid() && Unlocked() && cwd < ent.Length && ent[cwd].ref > 0
      modifies this`refs, this`tree, ent
      ensures var start := if Absolute(path) then ROOT else old(ent[cwd].key);
              && (w.Panic? <==> !(EntryFor(old(refs), ent.Length, start)
                                  && CanWalk(old(tree), old(refs), ent.Length, start, Elements(path, []), parent)))
              && (w.Found? ==>
                && w.i < ent.Length && Resolve(old(tree), start, Elements(path, []), parent) == Some(ent[w.i].key))
              && (w.Missing? ==> Resolve(old(tree), start, Elements(path, []), parent).None?)
      ensures w.Found? ==> w.i < ent.Length && ent[w.i].ref > 0 && refs == Plus(old(refs), ent[w.i].key)
      ensures w.Missing? ==> refs == old(refs)
      ensures !w.Panic? ==> Valid() && Unlocked() && Thinned(old(tree), tree, old(refs))
      ensures !w.Panic? ==> forall i :: 0 <= i < ent.Length && old(ent[i].ref) > 0 ==>
        ent[i].ref > 0 && ent[i].key == old(ent[i].key)
    {
      ghost var held, ents0 := refs, ent[..];
      UsedHeld(ents0, tree, held);
      forall k | k in held ensures held[k] > 0 { assert KeyOk(ents0, held, k); }
      var ip := Start(path, cwd);
      if ip.None? {
        return Panic;
      }
      ghost var ents1 := ent[..];
      w := WalkFrom(ip.value, path, parent, held);
      if !w.Panic? {
        StillTwice(ents0, ents1, ent[..], held);
      }
    }
  }
}
