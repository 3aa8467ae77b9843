/** Link counts against the directory entries they count. */
module LinkCounts {
  import opened Wrappers
  import opened Namespace
  import opened Refinement

  /** The entries naming an inode. */
  function Names(d: map<Key, Ino>, i: Ino): set<Key> {
    set k | k in d && d[k] == i
  }

  function Dirs(s: Sql): set<Ino> {
    set i | i in s.inodes && s.inodes[i].kind == Dir
  }

  /** The entries of a directory that name one of the inodes `dirs`. */
  function Subdirs(d: map<Key, Ino>, dirs: set<Ino>, i: Ino): set<Key> {
    set k | k in d && k.0 == i && d[k] in dirs
  }

  /** A file's count is the number of its names; a directory has one name, the root none. */
  predicate NamesExactAt(s: Sql, i: Ino)
    requires i in s.inodes
  {
    |Names(s.dentries, i)| == if s.inodes[i].kind != Dir then s.inodes[i].nlink else if i == ROOT then 0 else 1
  }

  /** No entry dangles, and every inode has exactly the names its count says. */
  ghost predicate NamesExact(s: Sql) {
    && (forall k | k in s.dentries :: s.dentries[k] in s.inodes)
    && IsDir(s, ROOT)
    && (forall i | i in s.inodes :: NamesExactAt(s, i))
  }

  /** Every directory's count is 2 plus its subdirectories. */
  ghost predicate DirsExact(s: Sql) {
    forall i | i in Dirs(s) :: DirExactAt(s, i)
  }

  predicate DirExactAt(s: Sql, i: Ino)
    requires i in s.inodes
  {
    s.inodes[i].nlink == 2 + |Subdirs(s.dentries, Dirs(s), i)|
  }

  /** The rename replaces a file that has other names. */
  predicate OverwritesShared(s: Sql, op: Op) {
    op.Rename? && NameError(op).None?
    && var from, to := (op.oldParent, op.oldName), (op.newParent, op.newName);
       from in s.dentries && IsDir(s, op.newParent) && to in s.dentries && s.dentries[to] != s.dentries[from]
       && s.dentries[from] in s.inodes && s.dentries[to] in s.inodes
       && !IsDir(s, s.dentries[from]) && !IsDir(s, s.dentries[to]) && s.inodes[s.dentries[to]].nlink > 1
  }

  /** The rename moves a directory to another parent, or onto an empty directory. */
  predicate MovesDirectory(s: Sql, op: Op) {
    op.Rename? && NameError(op).None?
    && var from, to := (op.oldParent, op.oldName), (op.newParent, op.newName);
       from in s.dentries && IsDir(s, op.newParent) && IsDir(s, s.dentries[from])
       && if to in s.dentries
          then s.dentries[to] != s.dentries[from] && IsDir(s, s.dentries[to]) && !HasEntries(s, s.dentries[to])
          else op.oldParent != op.newParent
  }

  // ---- Entries added and removed ----

  lemma NamesAdded(d: map<Key, Ino>, k: Key, j: Ino, i: Ino)
    requires k !in d
    ensures |Names(d[k := j], i)| == |Names(d, i)| + if i == j then 1 else 0
  {
    if i == j {
      assert Names(d[k := j], i) == Names(d, i) + {k};
    } else {
      assert Names(d[k := j], i) == Names(d, i);
    }
  }

  lemma NamesRemoved(d: map<Key, Ino>, k: Key, i: Ino)
    requires k in d
    ensures |Names(d - {k}, i)| == |Names(d, i)| - if i == d[k] then 1 else 0
  {
    if i == d[k] {
      assert Names(d - {k}, i) == Names(d, i) - {k};
    } else {
      assert Names(d - {k}, i) == Names(d, i);
    }
  }

  lemma NoNames(d: map<Key, Ino>, i: Ino)
    requires forall k | k in d :: d[k] != i
    ensures Names(d, i) == {}
  {
  }

  lemma NamedOnce(s: Sql, k: Key, i: Ino)
    requires NamesExact(s) && k in s.dentries && s.dentries[k] == i && |Names(s.dentries, i)| == 1
    ensures forall j | j in s.dentries && s.dentries[j] == i :: j == k
  {
    forall j | j in s.dentries && s.dentries[j] == i ensures j == k {
      if j != k {
        assert {j, k} <= Names(s.dentries, i);
        SubsetSize({j, k}, Names(s.dentries, i));
      }
    }
  }

  // ---- Each operation ----

  lemma AddNames(s: Sql, p: Ino, n: Name, row: Inode, target: Option<string>, up: nat, victims: set<Key>)
    requires WellKept(s) && NamesExact(s) && (row.kind != Dir ==> row.nlink == 1) && (up > 0 ==> row.kind == Dir)
    ensures NamesExact(SqlAdd(s, p, n, row, target, up, victims).0)
  {
    var s', k := SqlAdd(s, p, n, row, target, up, victims).0, (p, n);
    if SqlParentError(s, p).None? && k !in s.dentries {
      NoNames(s.dentries, s.next);
      forall i | i in s'.inodes ensures NamesExactAt(s', i) {
        NamesAdded(s.dentries, k, s.next, i);
        if i in s.inodes {
          assert NamesExactAt(s, i);
        }
      }
    }
  }

  function Max(a: int, b: int): int {
    if a > b then a else b
  }

  /** The rows after an empty directory is removed below `p`. */
  lemma FewerRows(inodes: map<Ino, Inode>, child: Ino, p: Ino)
    requires child in inodes && p != child
    ensures
      var left := inodes - {child};
      var fewer := if p in left then left[p := left[p].(nlink := Max(left[p].nlink - 1, 2))] else left;
      && fewer.Keys == inodes.Keys - {child}
      && forall i | i in fewer ::
           fewer[i].kind == inodes[i].kind
           && fewer[i].nlink == if i == p then Max(inodes[i].nlink - 1, 2) else inodes[i].nlink
  {
  }

  lemma RmdirRows(s: Sql, p: Ino, n: Name)
    requires SqlRmdir(s, p, n).1.Ok?
    ensures
      var r, k := SqlRmdir(s, p, n).0, (p, n);
      && k in s.dentries && s.dentries[k] in s.inodes && p != s.dentries[k] && IsDir(s, s.dentries[k])
      && r.dentries == s.dentries - {k} && r.inodes.Keys == s.inodes.Keys - {s.dentries[k]}
      && forall i | i in r.inodes ::
           r.inodes[i].kind == s.inodes[i].kind
           && r.inodes[i].nlink == if i == p then Max(s.inodes[i].nlink - 1, 2) else s.inodes[i].nlink
  {
    var k := (p, n);
    var child := s.dentries[k];
    assert p != child by {
      assert k.0 == p;
    }
    FewerRows(s.inodes, child, p);
  }

  /** A directory is named by one entry only. */
  lemma OnlyName(s: Sql, k: Key)
    requires NamesExact(s) && k in s.dentries && IsDir(s, s.dentries[k])
    ensures forall j | j in s.dentries && s.dentries[j] == s.dentries[k] :: j == k
  {
    assert NamesExactAt(s, s.dentries[k]) && k in Names(s.dentries, s.dentries[k]);
    NamedOnce(s, k, s.dentries[k]);
  }

  /** No entry names the root. */
  lemma RootUnnamed(s: Sql, k: Key)
    requires NamesExact(s) && k in s.dentries
    ensures s.dentries[k] != ROOT
  {
    assert NamesExactAt(s, ROOT);
    assert Names(s.dentries, ROOT) == {};
    assert k !in Names(s.dentries, ROOT);
  }

  lemma RmdirNamesAt(s: Sql, p: Ino, n: Name, i: Ino)
    requires WellKept(s) && NamesExact(s) && SqlRmdir(s, p, n).1.Ok? && i in SqlRmdir(s, p, n).0.inodes
    ensures NamesExactAt(SqlRmdir(s, p, n).0, i)
  {
    RmdirRows(s, p, n);
    assert IsDir(s, p) && i in s.inodes && NamesExactAt(s, i);
    NamesRemoved(s.dentries, (p, n), i);
  }

  lemma RmdirNames(s: Sql, p: Ino, n: Name)
    requires WellKept(s) && NamesExact(s)
    ensures NamesExact(SqlRmdir(s, p, n).0)
  {
    var s', k := SqlRmdir(s, p, n).0, (p, n);
    if SqlRmdir(s, p, n).1.Ok? {
      RmdirRows(s, p, n);
      OnlyName(s, k);
      RootUnnamed(s, k);
      forall i | i in s'.inodes ensures NamesExactAt(s', i) {
        RmdirNamesAt(s, p, n, i);
      }
    }
  }

  lemma UnlinkNames(s: Sql, p: Ino, n: Name)
    requires WellKept(s) && NamesExact(s)
    ensures NamesExact(SqlUnlink(s, p, n).0)
  {
    var s', k := SqlUnlink(s, p, n).0, (p, n);
    if SqlUnlink(s, p, n).1.Ok? {
      var child := s.dentries[k];
      assert NamesExactAt(s, child);
      if s.inodes[child].nlink == 1 {
        NamedOnce(s, k, child);
      }
      forall i | i in s'.inodes ensures NamesExactAt(s', i) {
        NamesRemoved(s.dentries, k, i);
        assert NamesExactAt(s, i);
      }
    }
  }

  lemma HardlinkNames(s: Sql, ino: Ino, p: Ino, n: Name, victims: set<Key>)
    requires WellKept(s) && NamesExact(s)
    ensures NamesExact(SqlHardlink(s, ino, p, n, victims).0)
  {
    var s', k := SqlHardlink(s, ino, p, n, victims).0, (p, n);
    if SqlHardlink(s, ino, p, n, victims).1.Ok? {
      forall i | i in s'.inodes ensures NamesExactAt(s', i) {
        NamesAdded(s.dentries, k, ino, i);
        assert NamesExactAt(s, i);
      }
    }
  }

  /** What a successful rename does to the number of names of `i`. */
  lemma RenameCounts(s: Sql, from: Key, to: Key, victims: set<Key>, i: Ino)
    requires SqlRename(s, from, to, victims).1.Ok? && (to in s.dentries ==> s.dentries[to] != s.dentries[from])
    ensures |Names(SqlRename(s, from, to, victims).0.dentries, i)|
            == |Names(s.dentries, i)| - if to in s.dentries && s.dentries[to] == i then 1 else 0
  {
    var src := s.dentries[from];
    var d := s.dentries - {to};
    if to in s.dentries {
      NamesRemoved(s.dentries, to, i);
      assert from != to;
    } else {
      assert d == s.dentries;
    }
    NamesRemoved(d, from, i);
    NamesAdded(d - {from}, to, src, i);
  }

  /** The inode a rename replaces, if it replaces one. */
  predicate Replaces(s: Sql, from: Key, to: Key) {
    from in s.dentries && to in s.dentries && s.dentries[to] != s.dentries[from]
  }

  lemma RenameKeepsNames(s: Sql, from: Key, to: Key, victims: set<Key>)
    requires WellKept(s) && NamesExact(s) && SqlRename(s, from, to, victims).1.Ok?
    requires Replaces(s, from, to) ==> s.inodes[s.dentries[to]].kind == Dir || s.inodes[s.dentries[to]].nlink == 1
    ensures NamesExact(SqlRename(s, from, to, victims).0)
  {
    var r := SqlRename(s, from, to, victims).0;
    if to !in s.dentries || s.dentries[to] != s.dentries[from] {
      assert NamesExactAt(s, ROOT);
      if to in s.dentries {
        assert NamesExactAt(s, s.dentries[to]) && to in Names(s.dentries, s.dentries[to]);
        NamedOnce(s, to, s.dentries[to]);
      }
      forall i | i in r.inodes ensures NamesExactAt(r, i) {
        RenameCounts(s, from, to, victims, i);
        assert NamesExactAt(s, i);
      }
    }
  }

  /** Replacing a file that has other names leaves each of those dangling. */
  lemma OverwriteLosesNames(s: Sql, from: Key, to: Key, victims: set<Key>)
    requires WellKept(s) && NamesExact(s) && SqlRename(s, from, to, victims).1.Ok? && Replaces(s, from, to)
    requires s.inodes[s.dentries[to]].kind != Dir && s.inodes[s.dentries[to]].nlink > 1
    ensures forall k | k in Names(s.dentries, s.dentries[to]) && k != to ::
              Dangles(SqlRename(s, from, to, victims).0, k)
    ensures exists k :: Dangles(SqlRename(s, from, to, victims).0, k)
  {
    var dst, r := s.dentries[to], SqlRename(s, from, to, victims).0;
    assert NamesExactAt(s, dst);
    RenameCounts(s, from, to, victims, dst);
    assert Names(r.dentries, dst) != {};
    var k :| k in Names(r.dentries, dst);
    assert Dangles(r, k);
  }

  lemma RenameNames(s: Sql, op: Op, victims: set<Key>)
    requires WellKept(s) && NamesExact(s) && op.Rename? && NameError(op).None?
    ensures NamesExact(SqlStep(s, op, victims).0) <==> !OverwritesShared(s, op)
  {
    var from, to := (op.oldParent, op.oldName), (op.newParent, op.newName);
    if SqlRename(s, from, to, victims).1.Ok? {
      if OverwritesShared(s, op) {
        OverwriteLosesNames(s, from, to, victims);
      } else {
        RenameKeepsNames(s, from, to, victims);
      }
    }
  }

  /** Every operation keeps names exact, exactly unless it replaces a file that has other names. */
  lemma StepNames(s: Sql, op: Op, victims: set<Key>)
    requires WellKept(s) && NamesExact(s)
    ensures NamesExact(SqlStep(s, op, victims).0) <==> !OverwritesShared(s, op)
  {
    if NameError(op).None? {
      match op
      case Lookup(p, n) => SameTables(s, SqlLookup(s, p, n, victims).0);
      case Readlink(_) =>
      case Mkdir(p, n) => AddNames(s, p, n, Inode(Dir, 2), None, 1, victims);
      case Create(p, n) => AddNames(s, p, n, Inode(Regular, 1), None, 0, victims);
      case Symlink(p, n, target) => AddNames(s, p, n, Inode(SymLink, 1), Some(target), 0, victims);
      case Rmdir(p, n) => RmdirNames(s, p, n);
      case Unlink(p, n) => UnlinkNames(s, p, n);
      case Hardlink(i, p, n) => HardlinkNames(s, i, p, n, victims);
      case Rename(_, _, _, _) => RenameNames(s, op, victims);
    }
  }

  lemma SameTables(s: Sql, s': Sql)
    requires s'.inodes == s.inodes && s'.dentries == s.dentries
    ensures NamesExact(s) ==> NamesExact(s')
    ensures DirsExact(s) ==> DirsExact(s')
  {
    if NamesExact(s) {
      forall i | i in s'.inodes ensures NamesExactAt(s', i) {
        assert NamesExactAt(s, i);
      }
    }
    if DirsExact(s) {
      assert Dirs(s') == Dirs(s);
      forall i | i in Dirs(s') ensures DirExactAt(s', i) {
        assert DirExactAt(s, i);
      }
    }
  }

  // ---- Directory counts ----

  lemma SubdirsAdded(d: map<Key, Ino>, dirs: set<Ino>, k: Key, j: Ino, i: Ino)
    requires k !in d
    ensures |Subdirs(d[k := j], dirs, i)| == |Subdirs(d, dirs, i)| + if k.0 == i && j in dirs then 1 else 0
  {
    if k.0 == i && j in dirs {
      assert Subdirs(d[k := j], dirs, i) == Subdirs(d, dirs, i) + {k};
    } else {
      assert Subdirs(d[k := j], dirs, i) == Subdirs(d, dirs, i);
    }
  }

  lemma SubdirsRemoved(d: map<Key, Ino>, dirs: set<Ino>, k: Key, i: Ino)
    requires k in d
    ensures |Subdirs(d - {k}, dirs, i)| == |Subdirs(d, dirs, i)| - if k.0 == i && d[k] in dirs then 1 else 0
  {
    if k.0 == i && d[k] in dirs {
      assert Subdirs(d - {k}, dirs, i) == Subdirs(d, dirs, i) - {k};
    } else {
      assert Subdirs(d - {k}, dirs, i) == Subdirs(d, dirs, i);
    }
  }

  /** Only the kinds of named inodes matter. */
  lemma SubdirsSame(d: map<Key, Ino>, dirs: set<Ino>, dirs': set<Ino>, i: Ino)
    requires forall k | k in d :: d[k] in dirs <==> d[k] in dirs'
    ensures Subdirs(d, dirs, i) == Subdirs(d, dirs', i)
  {
  }

  lemma AddDirs(s: Sql, p: Ino, n: Name, row: Inode, target: Option<string>, up: nat, victims: set<Key>)
    requires WellKept(s) && DirsExact(s) && up == (if row.kind == Dir then 1 else 0)
             && (row.kind == Dir ==> row.nlink == 2)
    ensures DirsExact(SqlAdd(s, p, n, row, target, up, victims).0)
  {
    var s', k := SqlAdd(s, p, n, row, target, up, victims).0, (p, n);
    if SqlParentError(s, p).None? && k !in s.dentries {
      var dirs' := if row.kind == Dir then Dirs(s) + {s.next} else Dirs(s);
      assert Dirs(s') == dirs';
      forall i | i in dirs' ensures DirExactAt(s', i) {
        SubdirsSame(s.dentries, Dirs(s), dirs', i);
        SubdirsAdded(s.dentries, dirs', k, s.next, i);
        if i == s.next {
          assert Subdirs(s.dentries, dirs', i) == {};
        } else {
          assert DirExactAt(s, i);
        }
      }
    }
  }

  lemma RmdirShape(s: Sql, p: Ino, n: Name)
    requires NamesExact(s) && SqlRmdir(s, p, n).1.Ok?
    ensures
      var r, k := SqlRmdir(s, p, n).0, (p, n);
      r.dentries == s.dentries - {k} && Dirs(r) == Dirs(s) - {s.dentries[k]} && s.dentries[k] in Dirs(s)
      && (forall j | j in r.dentries :: r.dentries[j] != s.dentries[k])
      && forall i | i in Dirs(r) ::
           r.inodes[i].nlink == if i == p then Max(s.inodes[i].nlink - 1, 2) else s.inodes[i].nlink
  {
    RmdirRows(s, p, n);
    OnlyName(s, (p, n));
  }

  lemma RmdirDirs(s: Sql, p: Ino, n: Name)
    requires WellKept(s) && NamesExact(s) && DirsExact(s)
    ensures DirsExact(SqlRmdir(s, p, n).0)
  {
    var r, k := SqlRmdir(s, p, n).0, (p, n);
    if SqlRmdir(s, p, n).1.Ok? {
      RmdirShape(s, p, n);
      forall i | i in Dirs(r) ensures DirExactAt(r, i) {
        assert DirExactAt(s, i);
        SubdirsSame(r.dentries, Dirs(s), Dirs(r), i);
        SubdirsRemoved(s.dentries, Dirs(s), k, i);
      }
    }
  }

  lemma UnlinkDirs(s: Sql, p: Ino, n: Name)
    requires DirsExact(s)
    ensures DirsExact(SqlUnlink(s, p, n).0)
  {
    var s', k := SqlUnlink(s, p, n).0, (p, n);
    if SqlUnlink(s, p, n).1.Ok? {
      assert Dirs(s') == Dirs(s);
      forall i | i in Dirs(s') ensures DirExactAt(s', i) {
        assert DirExactAt(s, i);
        SubdirsRemoved(s.dentries, Dirs(s), k, i);
      }
    }
  }

  lemma HardlinkDirs(s: Sql, ino: Ino, p: Ino, n: Name, victims: set<Key>)
    requires DirsExact(s)
    ensures DirsExact(SqlHardlink(s, ino, p, n, victims).0)
  {
    var s', k := SqlHardlink(s, ino, p, n, victims).0, (p, n);
    if SqlHardlink(s, ino, p, n, victims).1.Ok? {
      assert Dirs(s') == Dirs(s);
      forall i | i in Dirs(s') ensures DirExactAt(s', i) {
        assert DirExactAt(s, i);
        SubdirsAdded(s.dentries, Dirs(s), k, ino, i);
      }
    }
  }

  /** What moving an entry does to the subdirectories of `i`. */
  lemma MovedSubdirs(d: map<Key, Ino>, dirs: set<Ino>, from: Key, to: Key, i: Ino)
    requires from in d && from != to
    ensures
      |Subdirs((d - {from})[to := d[from]], dirs, i)| == |Subdirs(d, dirs, i)|
        - (if to in d && to.0 == i && d[to] in dirs then 1 else 0)
        - (if from.0 == i && d[from] in dirs then 1 else 0)
        + (if to.0 == i && d[from] in dirs then 1 else 0)
  {
    var free := d - {to};
    if to in d {
      SubdirsRemoved(d, dirs, to, i);
    } else {
      assert free == d;
    }
    SubdirsRemoved(free, dirs, from, i);
    SubdirsAdded(free - {from}, dirs, to, d[from], i);
    assert (free - {from})[to := d[from]] == (d - {from})[to := d[from]];
  }

  ghost predicate MovedTables(s: Sql, r: Sql, from: Key, to: Key)
    requires from in s.dentries
  {
    && r.dentries == (s.dentries - {from})[to := s.dentries[from]]
    && Dirs(r) == (if to in s.dentries then Dirs(s) - {s.dentries[to]} else Dirs(s))
    && (forall j | j in r.dentries :: r.dentries[j] in Dirs(r) <==> r.dentries[j] in Dirs(s))
    && (forall i | i in Dirs(r) :: r.inodes[i].nlink == s.inodes[i].nlink)
    && from.0 in Dirs(r)
  }

  lemma RenameShape(s: Sql, from: Key, to: Key, victims: set<Key>)
    requires WellKept(s) && NamesExact(s) && SqlRename(s, from, to, victims).1.Ok?
    requires to in s.dentries ==> s.dentries[to] != s.dentries[from]
    ensures MovedTables(s, SqlRename(s, from, to, victims).0, from, to)
  {
    var r := SqlRename(s, from, to, victims).0;
    if to in s.dentries {
      var dst := s.dentries[to];
      assert r.dentries == (s.dentries - {from})[to := s.dentries[from]];
      if dst in Dirs(s) {
        OnlyName(s, to);
      }
    }
  }

  /** A successful rename that is not onto the same inode keeps directory counts exact, exactly
      when it moves no directory, or moves one to a free name of its own parent. */
  lemma RenameDirs(s: Sql, r: Sql, from: Key, to: Key)
    requires DirsExact(s) && from in s.dentries && from != to && MovedTables(s, r, from, to)
    requires to in s.dentries ==> (s.dentries[to] in Dirs(s) <==> s.dentries[from] in Dirs(s))
    ensures DirsExact(r) <==> s.dentries[from] !in Dirs(s) || (to !in s.dentries && from.0 == to.0)
  {
    forall i | i in Dirs(r)
      ensures i in Dirs(s) && DirExactAt(s, i)
      ensures |Subdirs(r.dentries, Dirs(r), i)| == |Subdirs(r.dentries, Dirs(s), i)|
    {
      SubdirsSame(r.dentries, Dirs(s), Dirs(r), i);
    }
    forall i | i in Dirs(r)
      ensures s.dentries[from] !in Dirs(s) || (to !in s.dentries && from.0 == to.0) ==> DirExactAt(r, i)
    {
      MovedSubdirs(s.dentries, Dirs(s), from, to, i);
    }
    MovedSubdirs(s.dentries, Dirs(s), from, to, from.0);
    assert from.0 in Dirs(r) && DirExactAt(s, from.0);
  }

  lemma StepRenameDirs(s: Sql, op: Op, victims: set<Key>)
    requires WellKept(s) && NamesExact(s) && DirsExact(s) && op.Rename? && NameError(op).None?
    ensures DirsExact(SqlStep(s, op, victims).0) <==> !MovesDirectory(s, op)
  {
    var from, to := (op.oldParent, op.oldName), (op.newParent, op.newName);
    if SqlRename(s, from, to, victims).1.Ok? && (to in s.dentries ==> s.dentries[to] != s.dentries[from]) {
      RenameShape(s, from, to, victims);
      RenameDirs(s, SqlRename(s, from, to, victims).0, from, to);
    }
  }

  /** Every operation keeps directory counts exact, exactly unless it moves a directory to another
      parent or onto an empty directory. */
  lemma StepDirs(s: Sql, op: Op, victims: set<Key>)
    requires WellKept(s) && NamesExact(s) && DirsExact(s)
    ensures DirsExact(SqlStep(s, op, victims).0) <==> !MovesDirectory(s, op)
  {
    if NameError(op).None? {
      match op
      case Lookup(p, n) => SameTables(s, SqlLookup(s, p, n, victims).0);
      case Readlink(_) =>
      case Mkdir(p, n) => AddDirs(s, p, n, Inode(Dir, 2), None, 1, victims);
      case Create(p, n) => AddDirs(s, p, n, Inode(Regular, 1), None, 0, victims);
      case Symlink(p, n, target) => AddDirs(s, p, n, Inode(SymLink, 1), Some(target), 0, victims);
      case Rmdir(p, n) => RmdirDirs(s, p, n);
      case Unlink(p, n) => UnlinkDirs(s, p, n);
      case Hardlink(i, p, n) => HardlinkDirs(s, i, p, n, victims);
      case Rename(_, _, _, _) => StepRenameDirs(s, op, victims);
    }
  }

  // ---- Runs of both filesystems side by side ----

  /** One operation and what the dentry cache evicts while it runs. */
  datatype Event = Event(op: Op, victims: set<Key>)

  function RunMem(m: Mem, es: seq<Event>): Mem
    decreases |es|
  {
    if es == [] then m else RunMem(MemStep(m, es[0].op).0, es[1..])
  }

  function RunSql(s: Sql, es: seq<Event>): Sql
    decreases |es|
  {
    if es == [] then s else RunSql(SqlStep(s, es[0].op, es[0].victims).0, es[1..])
  }

  /** Every operation of the run succeeds or fails alike in both. */
  predicate RunAlike(m: Mem, s: Sql, es: seq<Event>)
    decreases |es|
  {
    es == []
    || (Alike(s, es[0].op, MemStep(m, es[0].op).1, SqlStep(s, es[0].op, es[0].victims).1)
        && RunAlike(MemStep(m, es[0].op).0, SqlStep(s, es[0].op, es[0].victims).0, es[1..]))
  }

  predicate NeverOverwritesShared(s: Sql, es: seq<Event>)
    decreases |es|
  {
    es == []
    || (!OverwritesShared(s, es[0].op)
        && NeverOverwritesShared(SqlStep(s, es[0].op, es[0].victims).0, es[1..]))
  }

  predicate NeverMovesDirectory(s: Sql, es: seq<Event>)
    decreases |es|
  {
    es == [] || (!MovesDirectory(s, es[0].op) && NeverMovesDirectory(SqlStep(s, es[0].op, es[0].victims).0, es[1..]))
  }

  lemma NothingDanglesNothingParts(s: Sql, op: Op)
    requires NamesExact(s)
    ensures !Parts(s, op)
  {
  }

  /** Over every run that never replaces a file with other names, whatever the dentry cache
      evicts, each operation succeeds or fails alike in both filesystems, with the same reply, and
      both hold the same namespace at the end. */
  lemma {:induction false} RunRefines(m: Mem, s: Sql, es: seq<Event>)
    requires Related(m, s) && NamesExact(s) && NeverOverwritesShared(s, es)
    ensures RunAlike(m, s, es)
    ensures Related(RunMem(m, es), RunSql(s, es)) && NamesExact(RunSql(s, es))
    decreases |es|
  {
    if es != [] {
      NothingDanglesNothingParts(s, es[0].op);
      StepRefines(m, s, es[0].op, es[0].victims);
      StepNames(s, es[0].op, es[0].victims);
      RunRefines(MemStep(m, es[0].op).0, SqlStep(s, es[0].op, es[0].victims).0, es[1..]);
    }
  }

  lemma EmptyRelated()
    ensures Related(EMPTY_MEM, EMPTY_SQL) && NamesExact(EMPTY_SQL) && DirsExact(EMPTY_SQL)
  {
    assert NodeAgrees(EMPTY_MEM, EMPTY_SQL, ROOT);
    assert Names(EMPTY_SQL.dentries, ROOT) == {};
    assert Subdirs(EMPTY_SQL.dentries, Dirs(EMPTY_SQL), ROOT) == {};
  }

  lemma {:induction false} RunDirs(m: Mem, s: Sql, es: seq<Event>)
    requires Related(m, s) && NamesExact(s) && DirsExact(s)
    requires NeverOverwritesShared(s, es) && NeverMovesDirectory(s, es)
    ensures DirsExact(RunSql(s, es))
    decreases |es|
  {
    if es != [] {
      NothingDanglesNothingParts(s, es[0].op);
      StepRefines(m, s, es[0].op, es[0].victims);
      StepNames(s, es[0].op, es[0].victims);
      StepDirs(s, es[0].op, es[0].victims);
      RunDirs(MemStep(m, es[0].op).0, SqlStep(s, es[0].op, es[0].victims).0, es[1..]);
    }
  }

  /** From the empty filesystem: such runs are indistinguishable, every link count is exact and no
      entry dangles, in the tables and so in the reference filesystem. */
  lemma LinkCountsAreExact(es: seq<Event>)
    requires NeverOverwritesShared(EMPTY_SQL, es) && NeverMovesDirectory(EMPTY_SQL, es)
    ensures RunAlike(EMPTY_MEM, EMPTY_SQL, es)
    ensures
      var m, s := RunMem(EMPTY_MEM, es), RunSql(EMPTY_SQL, es);
      Related(m, s) && NamesExact(s) && DirsExact(s)
  {
    EmptyRelated();
    RunRefines(EMPTY_MEM, EMPTY_SQL, es);
    RunDirs(EMPTY_MEM, EMPTY_SQL, es);
  }
}
