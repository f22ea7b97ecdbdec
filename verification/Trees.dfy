/** The subtree below a path, and what each filesystem step does to it. */
module Trees {
  import opened Basics
  import opened RemoteFiles

  /** Entries by their path relative to the root of the tree; the root itself
      is at the empty path, and the empty map is a tree that does not exist. */
  type Tree = Files

  const NOTHING: Tree := map[]

  function Sub(e: Files, root: Path): (t: Tree)
    ensures forall q {:trigger q in t} :: q in t <==> root + q in e
    ensures forall q {:trigger t[q]} :: q in t ==> t[q] == e[root + q]
  {
    var relative := set p | p in e && root <= p :: p[|root|..];
    assert forall q :: root + q in e ==> root <= root + q && (root + q)[|root|..] == q;
    map q | q in relative && root + q in e :: e[root + q]
  }

  /** Neither path is inside the other. */
  predicate Apart(a: Path, b: Path) {
    !(a <= b) && !(b <= a)
  }

  ghost predicate OnlyAt(e: Files, e': Files, path: Path) {
    forall q :: q != path ==> (q in e <==> q in e') && (q in e ==> e[q] == e'[q])
  }

  lemma SameElsewhere(e: Files, e': Files, path: Path, root: Path)
    requires OnlyAt(e, e', path) && !(root <= path)
    ensures Sub(e', root) == Sub(e, root)
  {
    forall q
      ensures root + q != path
    {
      assert root <= root + q;
    }
    assert forall q :: q in Sub(e, root) <==> q in Sub(e', root);
  }

  lemma BelowIsApart(root: Path, q: Path, other: Path)
    requires Apart(root, other)
    ensures !(other <= root + q)
  {
  }

  lemma SubAfterCreate(e: Files, root: Path, q: Path, entry: Entry)
    ensures Sub(e[root + q := entry], root) == Sub(e, root)[q := entry]
  {
    var t := Sub(e[root + q := entry], root);
    forall p
      ensures p in t <==> p in Sub(e, root)[q := entry]
      ensures p in t ==> t[p] == Sub(e, root)[q := entry][p]
    {
      assert root + p == root + q ==> p == (root + p)[|root|..] == (root + q)[|root|..] == q;
    }
  }

  lemma SubAfterRemove(e: Files, root: Path, q: Path)
    ensures Sub(e - {root + q}, root) == Sub(e, root) - {q}
  {
    var t := Sub(e - {root + q}, root);
    forall p
      ensures p in t <==> p in Sub(e, root) - {q}
    {
      assert root + p == root + q ==> p == (root + p)[|root|..] == (root + q)[|root|..] == q;
    }
    assert t == Sub(e, root) - {q};
  }

  /** A rename carries the whole tree over and leaves nothing behind. */
  lemma SubAfterRename(e: Files, from: Path, to: Path)
    requires Closed(e) && MayRename(e, from, to)
    ensures Sub(Moved(e, from, to), to) == Sub(e, from)
    ensures Sub(Moved(e, from, to), from) == NOTHING
    ensures Sub(e, to) == NOTHING && Sub(e, from) != NOTHING
  {
    RenamedTree(e, from, to);
    RenamedAway(e, from, to);
    AbsentIsNothing(e, to);
    AbsentIsNothing(e, from);
  }

  lemma RenamedTree(e: Files, from: Path, to: Path)
    requires Closed(e) && MayRename(e, from, to)
    ensures Sub(Moved(e, from, to), to) == Sub(e, from)
  {
    var m := Moved(e, from, to);
    forall q
      ensures q in Sub(m, to) <==> q in Sub(e, from)
      ensures q in Sub(m, to) ==> Sub(m, to)[q] == Sub(e, from)[q]
    {
      MovedAt(e, from, to, to + q);
      assert to <= to + q;
      assert (to + q)[|to|..] == q;
    }
  }

  lemma RenameIsApart(e: Files, from: Path, to: Path)
    requires Closed(e) && MayRename(e, from, to)
    ensures Apart(from, to)
  {
    if to <= from {
      assert from[..|to|] == to;
      AncestorsExist(e, from, |to|);
    }
  }

  lemma RenamedAway(e: Files, from: Path, to: Path)
    requires Closed(e) && MayRename(e, from, to)
    ensures Sub(Moved(e, from, to), from) == NOTHING
  {
    var m := Moved(e, from, to);
    RenameIsApart(e, from, to);
    forall q
      ensures q !in Sub(m, from)
    {
      BelowIsApart(from, q, to);
      MovedAt(e, from, to, from + q);
      assert from <= from + q;
    }
  }

  lemma SubApartFromRename(e: Files, from: Path, to: Path, root: Path)
    requires Closed(e) && MayRename(e, from, to) && Apart(root, from) && Apart(root, to)
    ensures Sub(Moved(e, from, to), root) == Sub(e, root)
  {
    var m := Moved(e, from, to);
    forall q
      ensures q in Sub(m, root) <==> q in Sub(e, root)
      ensures q in Sub(m, root) ==> Sub(m, root)[q] == Sub(e, root)[q]
    {
      BelowIsApart(root, q, from);
      BelowIsApart(root, q, to);
      MovedAt(e, from, to, root + q);
    }
  }

  /** A tree that exists has its root, and every entry hangs below a directory of it. */
  ghost predicate Rooted(t: Tree) {
    && (t != NOTHING ==> [] in t)
    && forall q {:trigger Parent(q)} :: q in t && q != [] ==> IsDirectory(t, Parent(q))
  }

  lemma SubIsRooted(e: Files, root: Path)
    requires Closed(e)
    ensures Rooted(Sub(e, root))
  {
    var t := Sub(e, root);
    forall q | q in t
      ensures [] in t
      ensures q != [] ==> IsDirectory(t, Parent(q))
    {
      AncestorsExist(e, root + q, |root|);
      assert (root + q)[..|root|] == root == root + [];
      if q != [] {
        assert Parent(root + q) == root + Parent(q);
        assert root + q != [];
      }
    }
    if t != NOTHING {
      var q :| q in t;
    }
  }

  lemma AbsentIsNothing(e: Files, root: Path)
    requires Closed(e)
    ensures root in e <==> Sub(e, root) != NOTHING
    ensures root in e <==> [] in Sub(e, root)
    ensures root in e ==> e[root] == Sub(e, root)[[]]
  {
    SubIsRooted(e, root);
    assert root + [] == root;
    assert [] in Sub(e, root) ==> Sub(e, root) != NOTHING;
  }

  /** Some entries of `t`, unchanged. */
  ghost predicate PartOf(s: Tree, t: Tree) {
    forall q :: q in s ==> q in t && s[q] == t[q]
  }
}
