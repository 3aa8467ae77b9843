/** The two filesystems as objects that update their nodes, tables and dentry cache in place. */
module Filesystems {
  import opened Wrappers
  import opened Namespace
  import opened Refinement
  import opened LinkCounts

  /** The reference filesystem: a map of nodes and a counter. */
  class MemFs {
    var nodes: map<Ino, Node>
    var nextIno: Ino

    function State(): Mem
      reads this
    {
      Mem(nodes, nextIno)
    }

    constructor ()
      ensures State() == EMPTY_MEM
    {
      nodes := map[ROOT := DirNode(2, map[])];
      nextIno := ROOT + 1;
    }

    method Lookup(parent: Ino, name: Name) returns (r: Outcome)
      ensures (State(), r) == MemStep(State(), Op.Lookup(parent, name))
    {
      if ValidateName(name).Some? {
        return Err(ValidateName(name).value);
      }
      if parent !in nodes {
        return Err(NotFound);
      }
      if !nodes[parent].DirNode? {
        return Err(NotADirectory);
      }
      if name !in nodes[parent].children {
        return Ok(Found(None));
      }
      var child := nodes[parent].children[name];
      return Ok(Found(if child in nodes then Some(NodeAttr(child, nodes[child])) else None));
    }

    /** Shared by mkdir, create and symlink: a new node, linked into its parent. */
    method AddNode(parent: Ino, name: Name, node: Node, up: nat) returns (r: Outcome)
      modifies this
      ensures (State(), r) == MemAdd(old(State()), parent, name, node, up)
    {
      if parent !in nodes {
        return Err(NotFound);
      }
      if !nodes[parent].DirNode? {
        return Err(NotADirectory);
      }
      if name in nodes[parent].children {
        return Err(AlreadyExists);
      }
      var ino := nextIno;
      nextIno := nextIno + 1;
      nodes := nodes[ino := node];
      if parent in nodes && nodes[parent].DirNode? {
        var dir := nodes[parent];
        nodes := nodes[parent := DirNode(dir.nlink + up, dir.children[name := ino])];
      }
      return Ok(Made(NodeAttr(ino, node)));
    }

    method Mkdir(parent: Ino, name: Name) returns (r: Outcome)
      modifies this
      ensures (State(), r) == MemStep(old(State()), Op.Mkdir(parent, name))
    {
      if ValidateName(name).Some? {
        return Err(ValidateName(name).value);
      }
      r := AddNode(parent, name, DirNode(2, map[]), 1);
    }

    method CreateFile(parent: Ino, name: Name) returns (r: Outcome)
      modifies this
      ensures (State(), r) == MemStep(old(State()), Op.Create(parent, name))
    {
      if ValidateName(name).Some? {
        return Err(ValidateName(name).value);
      }
      r := AddNode(parent, name, FileNode(1), 0);
    }

    method Symlink(parent: Ino, name: Name, target: string) returns (r: Outcome)
      modifies this
      ensures (State(), r) == MemStep(old(State()), Op.Symlink(parent, name, target))
    {
      if ValidateName(name).Some? {
        return Err(ValidateName(name).value);
      }
      r := AddNode(parent, name, LinkNode(1, target), 0);
    }

    method Rmdir(parent: Ino, name: Name) returns (r: Outcome)
      modifies this
      ensures (State(), r) == MemStep(old(State()), Op.Rmdir(parent, name))
    {
      if ValidateName(name).Some? {
        return Err(ValidateName(name).value);
      }
      var child := MemChild(State(), parent, name);
      if child.Err? {
        return Err(child.error);
      }
      if child.value !in nodes {
        return Err(NotFound);
      }
      if !nodes[child.value].DirNode? {
        return Err(NotADirectory);
      }
      if nodes[child.value].children != map[] {
        return Err(NotEmpty);
      }
      var dir := nodes[parent];
      nodes := nodes[parent := DirNode(if dir.nlink > 2 then dir.nlink - 1 else dir.nlink, dir.children - {name})];
      nodes := nodes - {child.value};
      return Ok(Done);
    }

    method Unlink(parent: Ino, name: Name) returns (r: Outcome)
      modifies this
      ensures (State(), r) == MemStep(old(State()), Op.Unlink(parent, name))
    {
      if ValidateName(name).Some? {
        return Err(ValidateName(name).value);
      }
      var child := MemChild(State(), parent, name);
      if child.Err? {
        return Err(child.error);
      }
      if child.value !in nodes {
        return Err(NotFound);
      }
      if nodes[child.value].DirNode? {
        return Err(IsADirectory);
      }
      nodes := nodes[parent := WithoutChild(nodes[parent], name)];
      var node := nodes[child.value];
      if node.nlink > 1 {
        nodes := nodes[child.value := WithNlink(node, node.nlink - 1)];
      } else {
        nodes := nodes - {child.value};
      }
      return Ok(Done);
    }

    method Hardlink(ino: Ino, parent: Ino, name: Name) returns (r: Outcome)
      modifies this
      ensures (State(), r) == MemStep(old(State()), Op.Hardlink(ino, parent, name))
    {
      if ValidateName(name).Some? {
        return Err(ValidateName(name).value);
      }
      if ino !in nodes {
        return Err(NotFound);
      }
      if nodes[ino].DirNode? {
        return Err(IsADirectory);
      }
      if parent !in nodes {
        return Err(NotFound);
      }
      if !nodes[parent].DirNode? {
        return Err(NotADirectory);
      }
      if name in nodes[parent].children {
        return Err(AlreadyExists);
      }
      nodes := nodes[ino := WithNlink(nodes[ino], nodes[ino].nlink + 1)];
      nodes := nodes[parent := WithChild(nodes[parent], name, ino)];
      return Ok(Made(NodeAttr(ino, nodes[ino])));
    }

    method Rename(oldParent: Ino, oldName: Name, newParent: Ino, newName: Name) returns (r: Outcome)
      modifies this
      ensures (State(), r) == MemStep(old(State()), Op.Rename(oldParent, oldName, newParent, newName))
    {
      if ValidateName(oldName).Some? {
        return Err(ValidateName(oldName).value);
      }
      if ValidateName(newName).Some? {
        return Err(ValidateName(newName).value);
      }
      var src := MemChild(State(), oldParent, oldName);
      if src.Err? {
        return Err(src.error);
      }
      if newParent !in nodes {
        return Err(NotFound);
      }
      if !nodes[newParent].DirNode? {
        return Err(NotADirectory);
      }
      if newName in nodes[newParent].children {
        var dst := nodes[newParent].children[newName];
        if dst == src.value {
          return Ok(Done);
        }
        var srcIsDir := src.value in nodes && nodes[src.value].DirNode?;
        var dstIsDir := dst in nodes && nodes[dst].DirNode?;
        if srcIsDir && !dstIsDir {
          return Err(NotADirectory);
        }
        if !srcIsDir && dstIsDir {
          return Err(IsADirectory);
        }
        if dstIsDir && nodes[dst].children != map[] {
          return Err(NotEmpty);
        }
        nodes := nodes - {dst};
      }
      if oldParent in nodes && nodes[oldParent].DirNode? {
        nodes := nodes[oldParent := WithoutChild(nodes[oldParent], oldName)];
      }
      if newParent in nodes && nodes[newParent].DirNode? {
        nodes := nodes[newParent := WithChild(nodes[newParent], newName, src.value)];
      }
      return Ok(Done);
    }

    method Perform(op: Op) returns (r: Outcome)
      modifies this
      ensures (State(), r) == MemStep(old(State()), op)
    {
      match op
      case Lookup(parent, name) => r := Lookup(parent, name);
      case Mkdir(parent, name) => r := Mkdir(parent, name);
      case Rmdir(parent, name) => r := Rmdir(parent, name);
      case Create(parent, name) => r := CreateFile(parent, name);
      case Unlink(parent, name) => r := Unlink(parent, name);
      case Symlink(parent, name, target) => r := Symlink(parent, name, target);
      case Hardlink(ino, parent, name) => r := Hardlink(ino, parent, name);
      case Readlink(ino) =>
        r := if ino !in nodes then Ok(Target(None))
             else if nodes[ino].LinkNode? then Ok(Target(Some(nodes[ino].target))) else Err(NotASymlink);
      case Rename(oldParent, oldName, newParent, newName) => r := Rename(oldParent, oldName, newParent, newName);
    }
  }

  /** The SQLite filesystem: tables and a dentry cache, whose evictions are reported in `victims`. */
  class SupermemoryFs {
    var inodes: map<Ino, Inode>
    var dentries: map<Key, Ino>
    var symlinks: map<Ino, string>
    var nextIno: Ino
    var dentryCache: map<Key, Ino>

    function State(): Sql
      reads this
    {
      Sql(inodes, dentries, symlinks, nextIno, dentryCache)
    }

    constructor ()
      ensures State() == EMPTY_SQL
    {
      inodes := map[ROOT := Inode(Dir, 2)];
      dentries, symlinks, dentryCache := map[], map[], map[];
      nextIno := ROOT + 1;
    }

    /** Puts an entry; the LRU may drop any entries to make room. */
    method CachePut(k: Key, ino: Ino) returns (ghost victims: set<Key>)
      modifies this`dentryCache
      ensures dentryCache == Cached(old(dentryCache), k, ino, victims)
    {
      var evicted: set<Key> := *;
      victims := evicted;
      dentryCache := dentryCache[k := ino] - evicted;
    }

    method Lookup(parent: Ino, name: Name) returns (r: Outcome, ghost victims: set<Key>)
      modifies this`dentryCache
      ensures (State(), r) == SqlStep(old(State()), Op.Lookup(parent, name), victims)
    {
      victims := {};
      if ValidateName(name).Some? {
        return Err(ValidateName(name).value), victims;
      }
      if parent !in inodes {
        return Err(NotFound), victims;
      }
      if inodes[parent].kind != Dir {
        return Err(NotADirectory), victims;
      }
      var k := (parent, name);
      if k in dentryCache {
        return Ok(Found(SqlAttr(State(), dentryCache[k]))), victims;
      }
      if k in dentries {
        victims := CachePut(k, dentries[k]);
        return Ok(Found(SqlAttr(State(), dentries[k]))), victims;
      }
      return Ok(Found(None)), victims;
    }

    /** Shared by mkdir, create and symlink: inode row, symlink row, entry, parent update. */
    method InsertChild(parent: Ino, name: Name, row: Inode, target: Option<string>, up: nat)
      returns (r: Outcome, ghost victims: set<Key>)
      modifies this
      ensures (State(), r) == SqlAdd(old(State()), parent, name, row, target, up, victims)
    {
      victims := {};
      if parent !in inodes {
        return Err(NotFound), victims;
      }
      if inodes[parent].kind != Dir {
        return Err(NotADirectory), victims;
      }
      if (parent, name) in dentries {
        return Err(AlreadyExists), victims;
      }
      var ino := nextIno;
      inodes := inodes[ino := row];
      nextIno := nextIno + 1;
      if target.Some? {
        symlinks := symlinks[ino := target.value];
      }
      dentries := dentries[(parent, name) := ino];
      inodes := inodes[parent := inodes[parent].(nlink := inodes[parent].nlink + up)];
      victims := CachePut((parent, name), ino);
      return Ok(Made(Attr(ino, row.kind, row.nlink))), victims;
    }

    method Mkdir(parent: Ino, name: Name) returns (r: Outcome, ghost victims: set<Key>)
      modifies this
      ensures (State(), r) == SqlStep(old(State()), Op.Mkdir(parent, name), victims)
    {
      if ValidateName(name).Some? {
        return Err(ValidateName(name).value), {};
      }
      r, victims := InsertChild(parent, name, Inode(Dir, 2), None, 1);
    }

    method CreateFile(parent: Ino, name: Name) returns (r: Outcome, ghost victims: set<Key>)
      modifies this
      ensures (State(), r) == SqlStep(old(State()), Op.Create(parent, name), victims)
    {
      if ValidateName(name).Some? {
        return Err(ValidateName(name).value), {};
      }
      r, victims := InsertChild(parent, name, Inode(Regular, 1), None, 0);
    }

    method Symlink(parent: Ino, name: Name, target: string) returns (r: Outcome, ghost victims: set<Key>)
      modifies this
      ensures (State(), r) == SqlStep(old(State()), Op.Symlink(parent, name, target), victims)
    {
      if ValidateName(name).Some? {
        return Err(ValidateName(name).value), {};
      }
      r, victims := InsertChild(parent, name, Inode(SymLink, 1), Some(target), 0);
    }

    method Rmdir(parent: Ino, name: Name) returns (r: Outcome)
      modifies this
      ensures (State(), r) == SqlStep(old(State()), Op.Rmdir(parent, name), {})
    {
      if ValidateName(name).Some? {
        return Err(ValidateName(name).value);
      }
      var k := (parent, name);
      if k !in dentries {
        return Err(NotFound);
      }
      var child := dentries[k];
      if child !in inodes {
        return Err(NotFound);
      }
      if inodes[child].kind != Dir {
        return Err(NotADirectory);
      }
      if HasEntries(State(), child) {
        return Err(NotEmpty);
      }
      dentries := dentries - {k};
      inodes := inodes - {child};
      if parent in inodes {
        var n := inodes[parent].nlink - 1;
        inodes := inodes[parent := inodes[parent].(nlink := if n > 2 then n else 2)];
      }
      dentryCache := dentryCache - {k};
      return Ok(Done);
    }

    method Unlink(parent: Ino, name: Name) returns (r: Outcome)
      modifies this
      ensures (State(), r) == SqlStep(old(State()), Op.Unlink(parent, name), {})
    {
      if ValidateName(name).Some? {
        return Err(ValidateName(name).value);
      }
      var k := (parent, name);
      if k !in dentries {
        return Err(NotFound);
      }
      var child := dentries[k];
      if child !in inodes {
        return Err(NotFound);
      }
      if inodes[child].kind == Dir {
        return Err(IsADirectory);
      }
      ghost var before := inodes;
      dentries := dentries - {k};
      inodes := inodes[child := inodes[child].(nlink := inodes[child].nlink - 1)];
      if inodes[child].nlink <= 0 {
        symlinks := symlinks - {child};
        inodes := inodes - {child};
        assert inodes == before - {child};
      }
      dentryCache := dentryCache - {k};
      return Ok(Done);
    }

    method Hardlink(ino: Ino, parent: Ino, name: Name) returns (r: Outcome, ghost victims: set<Key>)
      modifies this
      ensures (State(), r) == SqlStep(old(State()), Op.Hardlink(ino, parent, name), victims)
    {
      victims := {};
      if ValidateName(name).Some? {
        return Err(ValidateName(name).value), victims;
      }
      if ino !in inodes {
        return Err(NotFound), victims;
      }
      if inodes[ino].kind == Dir {
        return Err(IsADirectory), victims;
      }
      if parent !in inodes {
        return Err(NotFound), victims;
      }
      if inodes[parent].kind != Dir {
        return Err(NotADirectory), victims;
      }
      if (parent, name) in dentries {
        return Err(AlreadyExists), victims;
      }
      inodes := inodes[ino := inodes[ino].(nlink := inodes[ino].nlink + 1)];
      dentries := dentries[(parent, name) := ino];
      victims := CachePut((parent, name), ino);
      return Ok(Made(Attr(ino, inodes[ino].kind, inodes[ino].nlink))), victims;
    }

    method Rename(oldParent: Ino, oldName: Name, newParent: Ino, newName: Name)
      returns (r: Outcome, ghost victims: set<Key>)
      modifies this
      ensures (State(), r) == SqlStep(old(State()), Op.Rename(oldParent, oldName, newParent, newName), victims)
    {
      victims := {};
      if ValidateName(oldName).Some? {
        return Err(ValidateName(oldName).value), victims;
      }
      if ValidateName(newName).Some? {
        return Err(ValidateName(newName).value), victims;
      }
      var from, to := (oldParent, oldName), (newParent, newName);
      if from !in dentries {
        return Err(NotFound), victims;
      }
      var src := dentries[from];
      if newParent !in inodes {
        return Err(NotFound), victims;
      }
      if inodes[newParent].kind != Dir {
        return Err(NotADirectory), victims;
      }
      if src !in inodes {
        return Err(Io), victims;
      }
      if to in dentries {
        var dst := dentries[to];
        if dst == src {
          return Ok(Done), victims;
        }
        var refused := SqlReplaceError(State(), src, dst);
        if refused.Some? {
          return Err(refused.value), victims;
        }
        dentries := dentries - {to};
        symlinks := symlinks - {dst};
        inodes := inodes - {dst};
      }
      dentries := (dentries - {from})[to := src];
      dentryCache := dentryCache - {from} - {to};
      victims := CachePut(to, src);
      return Ok(Done), victims;
    }

    method Perform(op: Op) returns (r: Outcome, ghost victims: set<Key>)
      modifies this
      ensures (State(), r) == SqlStep(old(State()), op, victims)
    {
      victims := {};
      match op
      case Lookup(parent, name) => r, victims := Lookup(parent, name);
      case Mkdir(parent, name) => r, victims := Mkdir(parent, name);
      case Rmdir(parent, name) => r := Rmdir(parent, name);
      case Create(parent, name) => r, victims := CreateFile(parent, name);
      case Unlink(parent, name) => r := Unlink(parent, name);
      case Symlink(parent, name, target) => r, victims := Symlink(parent, name, target);
      case Hardlink(ino, parent, name) => r, victims := Hardlink(ino, parent, name);
      case Readlink(ino) =>
        r := if ino !in inodes then Ok(Target(None))
             else if inodes[ino].kind != SymLink then Err(NotASymlink)
             else if ino in symlinks then Ok(Target(Some(symlinks[ino]))) else Err(NotFound);
      case Rename(oldParent, oldName, newParent, newName) =>
        r, victims := Rename(oldParent, oldName, newParent, newName);
    }
  }

  // ---- Side by side ----

  /** What a caller can tell apart: success with its reply from failure. */
  predicate SameAnswer(a: Outcome, b: Outcome) {
    a.Ok? || b.Ok? ==> a == b
  }

  /** The two hold the same namespace, with exact link counts and no dangling entry. */
  ghost predicate InStep(mem: MemFs, sql: SupermemoryFs)
    reads mem, sql
  {
    Related(mem.State(), sql.State()) && NamesExact(sql.State())
  }

  /** One operation on both: they answer alike and stay in step, exactly unless it replaces a file
      that has other names. */
  method PerformBoth(mem: MemFs, sql: SupermemoryFs, op: Op) returns (a: Outcome, b: Outcome)
    requires InStep(mem, sql)
    modifies mem, sql
    ensures SameAnswer(a, b) && Related(mem.State(), sql.State())
    ensures InStep(mem, sql) <==> !OverwritesShared(old(sql.State()), op)
  {
    ghost var m, s := mem.State(), sql.State();
    NothingDanglesNothingParts(s, op);
    a := mem.Perform(op);
    ghost var victims;
    b, victims := sql.Perform(op);
    StepRefines(m, s, op, victims);
    StepNames(s, op, victims);
  }

  predicate SameAnswers(a: seq<Outcome>, b: seq<Outcome>) {
    |a| == |b| && forall k | 0 <= k < |a| :: SameAnswer(a[k], b[k])
  }

  lemma OneMoreAnswer(a: seq<Outcome>, b: seq<Outcome>, x: Outcome, y: Outcome)
    requires SameAnswers(a, b) && SameAnswer(x, y)
    ensures SameAnswers(a + [x], b + [y])
  {
  }

  /** The next operation, if any, would replace a file that has other names. */
  predicate StopsAt(s: Sql, ops: seq<Op>, k: nat) {
    k < |ops| && OverwritesShared(s, ops[k])
  }

  /** Any operations on both, up to one that would replace a file that has other names: each is
      answered alike, and the two stay in step. */
  method RunBoth(mem: MemFs, sql: SupermemoryFs, ops: seq<Op>) returns (a: seq<Outcome>, b: seq<Outcome>)
    requires InStep(mem, sql)
    modifies mem, sql
    ensures InStep(mem, sql) && SameAnswers(a, b) && |a| <= |ops| && (|a| < |ops| ==> StopsAt(sql.State(), ops, |a|))
  {
    a, b := [], [];
    while |a| < |ops|
      invariant InStep(mem, sql) && SameAnswers(a, b) && |a| <= |ops|
      decreases |ops| - |a|
    {
      var stop := StopsAt(sql.State(), ops, |a|);
      if stop {
        return;
      }
      var x, y := PerformBoth(mem, sql, ops[|a|]);
      OneMoreAnswer(a, b, x, y);
      a, b := a + [x], b + [y];
    }
  }

  /** Two new filesystems are in step. */
  method NewPair() returns (mem: MemFs, sql: SupermemoryFs)
    ensures fresh(mem) && fresh(sql) && InStep(mem, sql)
  {
    mem := new MemFs();
    sql := new SupermemoryFs();
    EmptyRelated();
  }
}
