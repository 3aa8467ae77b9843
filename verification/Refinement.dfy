/** The SQLite filesystem against the reference filesystem: same results, same namespace. */
module Refinement {
  import opened Wrappers
  import opened Namespace

  /** Node and row of one inode describe the same thing. */
  ghost predicate NodeAgrees(m: Mem, s: Sql, i: Ino)
    requires i in m.nodes && i in s.inodes
  {
    && NodeKind(m.nodes[i]) == s.inodes[i].kind && m.nodes[i].nlink == s.inodes[i].nlink
    && (m.nodes[i].DirNode? ==>
          forall n: Name :: (n in m.nodes[i].children <==> (i, n) in s.dentries)
                            && (n in m.nodes[i].children ==> m.nodes[i].children[n] == s.dentries[(i, n)]))
    && (m.nodes[i].LinkNode? ==> i in s.symlinks && s.symlinks[i] == m.nodes[i].target)
  }

  /** The reference filesystem and the tables hold the same namespace. */
  ghost predicate Agree(m: Mem, s: Sql) {
    && m.next == s.next
    && m.nodes.Keys == s.inodes.Keys
    && forall i | i in m.nodes :: NodeAgrees(m, s, i)
  }

  /** Entries hang below existing directories, inode numbers are below the next one, and link
      counts never fall below what one name or an empty directory gives. */
  ghost predicate WellKept(s: Sql) {
    && (forall k | k in s.dentries :: k.0 in s.inodes && s.inodes[k.0].kind == Dir && s.dentries[k] < s.next)
    && (forall i | i in s.inodes :: i < s.next && s.inodes[i].nlink >= if s.inodes[i].kind == Dir then 2 else 1)
  }

  /** The dentry cache holds nothing the table does not. */
  ghost predicate Coherent(s: Sql) {
    forall k | k in s.cache :: k in s.dentries && s.dentries[k] == s.cache[k]
  }

  ghost predicate Related(m: Mem, s: Sql) {
    Agree(m, s) && WellKept(s) && Coherent(s)
  }

  predicate Dangles(s: Sql, k: Key) {
    k in s.dentries && s.dentries[k] !in s.inodes
  }

  predicate IsDir(s: Sql, ino: Ino) {
    ino in s.inodes && s.inodes[ino].kind == Dir
  }

  /** The renames on which the two part: of an entry whose inode is gone, unless a directory is in
      the way, and of a non-directory onto such an entry. */
  predicate Parts(s: Sql, op: Op) {
    op.Rename? && NameError(op).None?
    && var from, to := (op.oldParent, op.oldName), (op.newParent, op.newName);
       from in s.dentries && IsDir(s, op.newParent)
       && if Dangles(s, from) then !(to in s.dentries && IsDir(s, s.dentries[to]))
          else !IsDir(s, s.dentries[from]) && Dangles(s, to)
  }

  /** The operation looks for a child below something that is not a directory. */
  predicate BelowNonDirectory(s: Sql, op: Op) {
    (op.Rmdir? && op.parent in s.inodes && !IsDir(s, op.parent))
    || (op.Unlink? && op.parent in s.inodes && !IsDir(s, op.parent))
    || (op.Rename? && op.oldParent in s.inodes && !IsDir(s, op.oldParent))
  }

  /** The rename fails in both, for different reasons. */
  predicate RefusedOnDangling(s: Sql, op: Op) {
    op.Rename? && (Dangles(s, (op.oldParent, op.oldName)) || Dangles(s, (op.newParent, op.newName)))
  }

  /** Both succeed with the same reply, or both fail; with the same error unless the operation
      looks below a non-directory or at a dangling entry. */
  predicate Alike(s: Sql, op: Op, a: Outcome, b: Outcome) {
    if a.Ok? then a == b
    else b.Err? && (a == b || (BelowNonDirectory(s, op) && a.error == NotADirectory && b.error == NotFound)
                    || (RefusedOnDangling(s, op) && b.error == Io))
  }

  lemma SameParentError(m: Mem, s: Sql, i: Ino)
    requires Agree(m, s)
    ensures MemParentError(m, i) == SqlParentError(s, i)
  {
    if i in m.nodes {
      assert NodeAgrees(m, s, i);
    }
  }

  lemma SameEntry(m: Mem, s: Sql, p: Ino, n: Name)
    requires Agree(m, s) && WellKept(s)
    ensures MemIsDir(m, p) <==> IsDir(s, p)
    ensures MemIsDir(m, p) ==> (n in m.nodes[p].children <==> (p, n) in s.dentries)
    ensures MemIsDir(m, p) && n in m.nodes[p].children ==> m.nodes[p].children[n] == s.dentries[(p, n)]
    ensures (p, n) in s.dentries ==> MemIsDir(m, p)
  {
    if p in m.nodes {
      assert NodeAgrees(m, s, p);
    }
  }

  lemma SameEmptiness(m: Mem, s: Sql, d: Ino)
    requires Agree(m, s) && WellKept(s) && MemIsDir(m, d)
    ensures m.nodes[d].children == map[] <==> !HasEntries(s, d)
  {
    assert NodeAgrees(m, s, d);
    if HasEntries(s, d) {
      var k :| k in s.dentries && k.0 == d;
      assert k == (d, k.1) && k.1 in m.nodes[d].children;
    } else {
      assert forall n: Name :: (d, n) !in s.dentries;
    }
  }

  /** A lookup changes nothing but the dentry cache, which stays coherent. */
  lemma LookupKept(m: Mem, s: Sql, p: Ino, n: Name, victims: set<Key>)
    requires Related(m, s)
    ensures Related(m, SqlLookup(s, p, n, victims).0)
  {
    var r := SqlLookup(s, p, n, victims).0;
    assert r == s.(cache := r.cache);
    forall i | i in m.nodes ensures NodeAgrees(m, r, i) {
      assert NodeAgrees(m, s, i);
    }
  }

  lemma LookupReplies(m: Mem, s: Sql, op: Op, victims: set<Key>)
    requires Related(m, s) && op.Lookup? && NameError(op).None?
    ensures MemStep(m, op).1 == SqlLookup(s, op.parent, op.name, victims).1
  {
    var k := (op.parent, op.name);
    SameParentError(m, s, op.parent);
    SameEntry(m, s, op.parent, op.name);
    if k in s.dentries && s.dentries[k] in s.inodes {
      assert NodeAgrees(m, s, s.dentries[k]);
    }
  }

  lemma LookupRefines(m: Mem, s: Sql, op: Op, victims: set<Key>)
    requires Related(m, s) && (op.Lookup? || op.Readlink?)
    ensures
      var l, r := MemStep(m, op), SqlStep(s, op, victims);
      Related(l.0, r.0) && l.1 == r.1
  {
    if op.Lookup? {
      if NameError(op).None? {
        LookupKept(m, s, op.parent, op.name, victims);
        LookupReplies(m, s, op, victims);
      }
    } else if op.ino in m.nodes {
      assert NodeAgrees(m, s, op.ino);
    }
  }

  lemma AddNode(m: Mem, s: Sql, p: Ino, n: Name, node: Node, row: Inode, target: Option<string>, up: nat,
                victims: set<Key>, i: Ino)
    requires Agree(m, s) && WellKept(s) && NodeKind(node) == row.kind && node.nlink == row.nlink
    requires node.DirNode? ==> node.children == map[]
    requires target == if node.LinkNode? then Some(node.target) else None
    requires MemParentError(m, p).None? && n !in m.nodes[p].children && SqlParentError(s, p).None?
             && (p, n) !in s.dentries
    requires i in m.nodes || i == m.next
    requires i in m.nodes ==> NodeAgrees(m, s, i)
    ensures
      var l, r := MemAdd(m, p, n, node, up).0, SqlAdd(s, p, n, row, target, up, victims).0;
      i in l.nodes && i in r.inodes && NodeAgrees(l, r, i)
  {
    assert m.next !in m.nodes && p != m.next;
  }

  lemma AddKept(s: Sql, p: Ino, n: Name, row: Inode, target: Option<string>, up: nat, victims: set<Key>)
    requires WellKept(s) && Coherent(s) && row.nlink >= if row.kind == Dir then 2 else 1
    ensures
      var r := SqlAdd(s, p, n, row, target, up, victims).0;
      WellKept(r) && Coherent(r)
  {
  }

  lemma AddAgrees(m: Mem, s: Sql, p: Ino, n: Name, node: Node, row: Inode, target: Option<string>, up: nat,
                  victims: set<Key>)
    requires Agree(m, s) && WellKept(s) && NodeKind(node) == row.kind && node.nlink == row.nlink
    requires node.DirNode? ==> node.children == map[]
    requires target == if node.LinkNode? then Some(node.target) else None
    requires MemParentError(m, p).None? && n !in m.nodes[p].children && SqlParentError(s, p).None?
             && (p, n) !in s.dentries
    ensures Agree(MemAdd(m, p, n, node, up).0, SqlAdd(s, p, n, row, target, up, victims).0)
  {
    var m', s' := MemAdd(m, p, n, node, up).0, SqlAdd(s, p, n, row, target, up, victims).0;
    assert m'.nodes.Keys == m.nodes.Keys + {m.next} && s'.inodes.Keys == s.inodes.Keys + {s.next};
    forall i | i in m'.nodes ensures NodeAgrees(m', s', i) {
      AddNode(m, s, p, n, node, row, target, up, victims, i);
    }
  }

  /** Adding one inode and its entry, in both. */
  lemma AddRefines(m: Mem, s: Sql, p: Ino, n: Name, node: Node, row: Inode, target: Option<string>, up: nat,
                   victims: set<Key>)
    requires Related(m, s) && NodeKind(node) == row.kind && node.nlink == row.nlink
    requires row.nlink >= if row.kind == Dir then 2 else 1
    requires node.DirNode? ==> node.children == map[]
    requires target == if node.LinkNode? then Some(node.target) else None
    ensures
      var l, r := MemAdd(m, p, n, node, up), SqlAdd(s, p, n, row, target, up, victims);
      Related(l.0, r.0) && l.1 == r.1
  {
    SameParentError(m, s, p);
    SameEntry(m, s, p, n);
    AddKept(s, p, n, row, target, up, victims);
    if MemParentError(m, p).None? && n !in m.nodes[p].children {
      AddAgrees(m, s, p, n, node, row, target, up, victims);
    }
  }

  lemma RmdirNode(m: Mem, s: Sql, p: Ino, n: Name, i: Ino)
    requires Agree(m, s) && MemIsDir(m, p) && (p, n) in s.dentries && s.dentries[(p, n)] in s.inodes
             && p != s.dentries[(p, n)]
    requires IsDir(s, s.dentries[(p, n)]) && !HasEntries(s, s.dentries[(p, n)])
    requires n in m.nodes[p].children && m.nodes[p].children[n] == s.dentries[(p, n)] && MemIsDir(m, s.dentries[(p, n)])
    requires m.nodes[s.dentries[(p, n)]].children == map[] && m.nodes[p].nlink >= 2
    requires i in m.nodes && i != s.dentries[(p, n)] && NodeAgrees(m, s, i)
    ensures
      var l, r := MemRmdir(m, p, n).0, SqlRmdir(s, p, n).0;
      i in l.nodes && i in r.inodes && NodeAgrees(l, r, i)
  {
  }

  lemma RmdirKept(s: Sql, p: Ino, n: Name)
    requires WellKept(s) && Coherent(s)
    ensures WellKept(SqlRmdir(s, p, n).0) && Coherent(SqlRmdir(s, p, n).0)
  {
    var s', k := SqlRmdir(s, p, n).0, (p, n);
    if SqlRmdir(s, p, n).1.Ok? {
      forall j | j in s'.dentries ensures j.0 in s'.inodes && s'.inodes[j.0].kind == Dir {
        assert j in s.dentries && j.0 != s.dentries[k];
      }
    }
  }

  lemma RmdirRefines(m: Mem, s: Sql, p: Ino, n: Name)
    requires Related(m, s)
    ensures
      var l, r := MemRmdir(m, p, n), SqlRmdir(s, p, n);
      Related(l.0, r.0)
      && (l.1 == r.1 || (p in s.inodes && !IsDir(s, p) && l.1 == Err(NotADirectory) && r.1 == Err(NotFound)))
  {
    SameEntry(m, s, p, n);
    RmdirKept(s, p, n);
    var k := (p, n);
    if k in s.dentries && IsDir(s, s.dentries[k]) {
      var child := s.dentries[k];
      assert NodeAgrees(m, s, child) && NodeAgrees(m, s, p);
      SameEmptiness(m, s, child);
      if !HasEntries(s, child) {
        assert p != child by {
          assert k.0 == p;
        }
        var m', s' := MemRmdir(m, p, n).0, SqlRmdir(s, p, n).0;
        forall i | i in m'.nodes ensures NodeAgrees(m', s', i) {
          RmdirNode(m, s, p, n, i);
        }
        assert m'.nodes.Keys == s'.inodes.Keys;
      }
    } else if k in s.dentries && s.dentries[k] in s.inodes {
      assert NodeAgrees(m, s, s.dentries[k]);
    }
  }

  lemma UnlinkNode(m: Mem, s: Sql, p: Ino, n: Name, i: Ino)
    requires Agree(m, s) && WellKept(s) && (p, n) in s.dentries && MemIsDir(m, p)
    requires n in m.nodes[p].children && m.nodes[p].children[n] == s.dentries[(p, n)]
    requires s.dentries[(p, n)] in s.inodes && !IsDir(s, s.dentries[(p, n)])
    requires i in MemUnlink(m, p, n).0.nodes && i in m.nodes && NodeAgrees(m, s, i)
    requires NodeAgrees(m, s, s.dentries[(p, n)])
    ensures i in SqlUnlink(s, p, n).0.inodes && NodeAgrees(MemUnlink(m, p, n).0, SqlUnlink(s, p, n).0, i)
  {
    var k := (p, n);
    var child := s.dentries[k];
    var m', s' := MemUnlink(m, p, n).0, SqlUnlink(s, p, n).0;
    assert child != p && s'.dentries == s.dentries - {k};
    if i == p {
      UnlinkedParent(m.nodes[p], m'.nodes[p], s.dentries, p, n);
    } else if i == child {
      assert NodeKind(m'.nodes[i]) == s'.inodes[i].kind;
    } else {
      assert m'.nodes[i] == m.nodes[i] && s'.inodes[i] == s.inodes[i];
    }
  }

  /** A directory's node lists the directory's entries. */
  ghost predicate Lists(node: Node, d: map<Key, Ino>, i: Ino) {
    node.DirNode? && forall n: Name :: (n in node.children <==> (i, n) in d)
                                       && (n in node.children ==> node.children[n] == d[(i, n)])
  }

  lemma UnlinkedParent(node: Node, node': Node, d: map<Key, Ino>, p: Ino, n: Name)
    requires Lists(node, d, p) && node' == WithoutChild(node, n)
    ensures Lists(node', d - {(p, n)}, p)
  {
  }

  lemma UnlinkKept(s: Sql, p: Ino, n: Name)
    requires WellKept(s) && Coherent(s)
    ensures WellKept(SqlUnlink(s, p, n).0) && Coherent(SqlUnlink(s, p, n).0)
  {
  }

  lemma UnlinkRefines(m: Mem, s: Sql, p: Ino, n: Name)
    requires Related(m, s)
    ensures
      var l, r := MemUnlink(m, p, n), SqlUnlink(s, p, n);
      Related(l.0, r.0)
      && (l.1 == r.1 || (p in s.inodes && !IsDir(s, p) && l.1 == Err(NotADirectory) && r.1 == Err(NotFound)))
  {
    SameEntry(m, s, p, n);
    UnlinkKept(s, p, n);
    var k := (p, n);
    if k in s.dentries && s.dentries[k] in s.inodes {
      var child := s.dentries[k];
      assert NodeAgrees(m, s, child);
      if !IsDir(s, child) {
        var m', s' := MemUnlink(m, p, n).0, SqlUnlink(s, p, n).0;
        forall i | i in m'.nodes ensures NodeAgrees(m', s', i) {
          UnlinkNode(m, s, p, n, i);
        }
        assert m'.nodes.Keys == s'.inodes.Keys;
      }
    }
  }

  lemma HardlinkNode(m: Mem, s: Sql, ino: Ino, p: Ino, n: Name, victims: set<Key>, i: Ino)
    requires Agree(m, s) && ino in m.nodes && ino in s.inodes && !m.nodes[ino].DirNode? && s.inodes[ino].kind != Dir
    requires MemIsDir(m, p) && IsDir(s, p) && n !in m.nodes[p].children && (p, n) !in s.dentries
    requires i in m.nodes && NodeAgrees(m, s, i) && NodeAgrees(m, s, ino)
    ensures
      var l, r := MemHardlink(m, ino, p, n).0, SqlHardlink(s, ino, p, n, victims).0;
      i in l.nodes && i in r.inodes && NodeAgrees(l, r, i)
  {
  }

  lemma HardlinkKept(s: Sql, ino: Ino, p: Ino, n: Name, victims: set<Key>)
    requires WellKept(s) && Coherent(s)
    ensures
      var r := SqlHardlink(s, ino, p, n, victims).0;
      WellKept(r) && Coherent(r)
  {
  }

  lemma HardlinkRefines(m: Mem, s: Sql, ino: Ino, p: Ino, n: Name, victims: set<Key>)
    requires Related(m, s)
    ensures
      var l, r := MemHardlink(m, ino, p, n), SqlHardlink(s, ino, p, n, victims);
      Related(l.0, r.0) && l.1 == r.1
  {
    SameParentError(m, s, p);
    SameEntry(m, s, p, n);
    HardlinkKept(s, ino, p, n, victims);
    if ino in m.nodes {
      assert NodeAgrees(m, s, ino);
      if !m.nodes[ino].DirNode? && MemParentError(m, p).None? && n !in m.nodes[p].children {
        var m', s' := MemHardlink(m, ino, p, n).0, SqlHardlink(s, ino, p, n, victims).0;
        forall i | i in m'.nodes ensures NodeAgrees(m', s', i) {
          HardlinkNode(m, s, ino, p, n, victims, i);
        }
        assert m'.nodes.Keys == s'.inodes.Keys;
      }
    }
  }

  lemma MoveNode(m: Mem, s: Sql, from: Key, to: Key, src: Ino, victims: set<Key>, i: Ino)
    requires Agree(m, s) && from != to && MemIsDir(m, from.0) && MemIsDir(m, to.0)
    requires i in m.nodes && i in s.inodes && NodeAgrees(m, s, i)
    ensures
      var l, r := m.(nodes := MemMove(m.nodes, from.0, from.1, to.0, to.1, src)), SqlMove(s, from, to, src, victims);
      i in l.nodes && NodeAgrees(l, r, i)
  {
  }

  lemma MoveKeys(m: Mem, from: Key, to: Key, src: Ino)
    requires MemIsDir(m, from.0) && MemIsDir(m, to.0)
    ensures MemMove(m.nodes, from.0, from.1, to.0, to.1, src).Keys == m.nodes.Keys
  {
  }

  lemma MoveKept(s: Sql, from: Key, to: Key, src: Ino, victims: set<Key>)
    requires WellKept(s) && from in s.dentries && s.dentries[from] == src && IsDir(s, to.0) && from != to
    requires forall k | k in s.cache && k != to && k != from :: k in s.dentries && s.dentries[k] == s.cache[k]
    ensures WellKept(SqlMove(s, from, to, src, victims)) && Coherent(SqlMove(s, from, to, src, victims))
  {
    var r := SqlMove(s, from, to, src, victims);
    forall k | k in r.dentries ensures k.0 in s.inodes && s.inodes[k.0].kind == Dir && r.dentries[k] < s.next {
      assert k == to || k in s.dentries;
    }
  }

  /** Moving an entry, once whatever was at the destination is out of the way. */
  lemma MoveRefines(m: Mem, s: Sql, from: Key, to: Key, src: Ino, victims: set<Key>)
    requires Agree(m, s) && WellKept(s) && from != to && from in s.dentries && s.dentries[from] == src && IsDir(s, to.0)
    requires src in s.inodes
    requires forall k | k in s.cache && k != to && k != from :: k in s.dentries && s.dentries[k] == s.cache[k]
    ensures Related(m.(nodes := MemMove(m.nodes, from.0, from.1, to.0, to.1, src)), SqlMove(s, from, to, src, victims))
  {
    SameEntry(m, s, from.0, from.1);
    SameEntry(m, s, to.0, to.1);
    var m', s' := m.(nodes := MemMove(m.nodes, from.0, from.1, to.0, to.1, src)), SqlMove(s, from, to, src, victims);
    MoveKeys(m, from, to, src);
    MoveKept(s, from, to, src, victims);
    forall i | i in m'.nodes ensures NodeAgrees(m', s', i) {
      MoveNode(m, s, from, to, src, victims, i);
    }
  }

  /** The tables with the replaced inode gone but its entry still in place. */
  function Vacated(s: Sql, dst: Ino): Sql {
    s.(symlinks := s.symlinks - {dst}, inodes := s.inodes - {dst})
  }

  lemma VacateRefines(m: Mem, s: Sql, dst: Ino)
    requires Related(m, s) && (IsDir(s, dst) ==> !HasEntries(s, dst))
    ensures Agree(m.(nodes := m.nodes - {dst}), Vacated(s, dst)) && WellKept(Vacated(s, dst))
            && Coherent(Vacated(s, dst))
  {
    var m', s' := m.(nodes := m.nodes - {dst}), Vacated(s, dst);
    forall i | i in m'.nodes ensures NodeAgrees(m', s', i) {
      assert NodeAgrees(m, s, i);
    }
    forall k | k in s'.dentries ensures k.0 in s'.inodes && s'.inodes[k.0].kind == Dir {
      assert k.0 != dst;
    }
  }

  /** Moving onto an entry is moving to where it was. */
  lemma TargetMakesNoDifference(s: Sql, from: Key, to: Key, src: Ino, victims: set<Key>)
    ensures SqlMove(s.(dentries := s.dentries - {to}), from, to, src, victims) == SqlMove(s, from, to, src, victims)
  {
    assert ((s.dentries - {to}) - {from})[to := src] == (s.dentries - {from})[to := src];
  }

  /** Replacing an entry: the replaced inode goes, then the moved entry takes its place. */
  lemma ReplaceRefines(m: Mem, s: Sql, from: Key, to: Key, dst: Ino, victims: set<Key>)
    requires Related(m, s) && from in s.dentries && s.dentries[from] in s.inodes && IsDir(s, to.0)
    requires to in s.dentries && s.dentries[to] == dst && dst != s.dentries[from]
    requires SqlReplaceError(s, s.dentries[from], dst).None?
    ensures
      var src := s.dentries[from];
      var cleared := s.(dentries := s.dentries - {to}, symlinks := s.symlinks - {dst}, inodes := s.inodes - {dst});
      Related(m.(nodes := MemMove(m.nodes - {dst}, from.0, from.1, to.0, to.1, src)),
        SqlMove(cleared, from, to, src, victims))
  {
    var src := s.dentries[from];
    var m', s' := m.(nodes := m.nodes - {dst}), Vacated(s, dst);
    VacateRefines(m, s, dst);
    assert to.0 != dst;
    MoveRefines(m', s', from, to, src, victims);
    TargetMakesNoDifference(s', from, to, src, victims);
  }

  lemma SameReplaceError(m: Mem, s: Sql, src: Ino, dst: Ino)
    requires Related(m, s) && src in s.inodes && dst in s.inodes
    ensures MemReplaceError(m, src, dst) == SqlReplaceError(s, src, dst)
  {
    assert NodeAgrees(m, s, src) && NodeAgrees(m, s, dst);
    if MemIsDir(m, dst) {
      SameEmptiness(m, s, dst);
    }
  }

  lemma RenameRefines(m: Mem, s: Sql, op: Op, victims: set<Key>)
    requires Related(m, s) && op.Rename? && NameError(op).None?
    ensures
      var l, r := MemStep(m, op), SqlStep(s, op, victims);
      (Alike(s, op, l.1, r.1) <==> !Parts(s, op)) && (!Parts(s, op) ==> Related(l.0, r.0))
  {
    var from, to := (op.oldParent, op.oldName), (op.newParent, op.newName);
    SameEntry(m, s, from.0, from.1);
    SameEntry(m, s, to.0, to.1);
    SameParentError(m, s, to.0);
    if from in s.dentries && IsDir(s, to.0) {
      var src := s.dentries[from];
      if src in s.inodes {
        assert NodeAgrees(m, s, src);
        if to !in s.dentries {
          MoveRefines(m, s, from, to, src, victims);
        } else if s.dentries[to] in s.inodes && s.dentries[to] != src {
          assert NodeAgrees(m, s, s.dentries[to]);
          SameReplaceError(m, s, src, s.dentries[to]);
          if SqlReplaceError(s, src, s.dentries[to]).None? {
            ReplaceRefines(m, s, from, to, s.dentries[to], victims);
          }
        }
      } else if to in s.dentries && s.dentries[to] in s.inodes {
        assert NodeAgrees(m, s, s.dentries[to]);
      }
    }
  }

  /** One operation on related filesystems, with the dentry cache evicting whatever it likes: they
      succeed alike and stay related, exactly unless it is a rename around a dangling entry. */
  lemma StepRefines(m: Mem, s: Sql, op: Op, victims: set<Key>)
    requires Related(m, s)
    ensures
      var l, r := MemStep(m, op), SqlStep(s, op, victims);
      (Alike(s, op, l.1, r.1) <==> !Parts(s, op)) && (!Parts(s, op) ==> Related(l.0, r.0))
  {
    if NameError(op).None? {
      match op
      case Lookup(_, _) => LookupRefines(m, s, op, victims);
      case Readlink(_) => LookupRefines(m, s, op, victims);
      case Mkdir(p, n) => AddRefines(m, s, p, n, DirNode(2, map[]), Inode(Dir, 2), None, 1, victims);
      case Create(p, n) => AddRefines(m, s, p, n, FileNode(1), Inode(Regular, 1), None, 0, victims);
      case Symlink(p, n, target) =>
        AddRefines(m, s, p, n, LinkNode(1, target), Inode(SymLink, 1), Some(target), 0, victims);
      case Rmdir(p, n) => RmdirRefines(m, s, p, n);
      case Unlink(p, n) => UnlinkRefines(m, s, p, n);
      case Hardlink(i, p, n) => HardlinkRefines(m, s, i, p, n, victims);
      case Rename(_, _, _, _) => RenameRefines(m, s, op, victims);
    }
  }
}
