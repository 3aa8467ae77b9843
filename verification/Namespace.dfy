/** The namespace operations of the in-memory reference filesystem and of the SQLite-backed one. */
module Namespace {
  import opened Wrappers

  type Ino = nat

  /** A path component, read as its UTF-8 bytes. */
  type Name = string

  /** A directory entry's key: parent inode and name. */
  type Key = (Ino, Name)

  const ROOT: Ino := 1
  const MAX_NAME_LEN: nat := 255

  datatype VfsError = NotFound | NotADirectory | IsADirectory | AlreadyExists | NotEmpty
                    | NotASymlink | InvalidPath | NameTooLong | Io

  datatype Kind = Regular | Dir | SymLink

  datatype Attr = Attr(ino: Ino, kind: Kind, nlink: int)

  datatype Op =
    | Lookup(parent: Ino, name: Name)
    | Mkdir(parent: Ino, name: Name)
    | Rmdir(parent: Ino, name: Name)
    | Create(parent: Ino, name: Name)
    | Unlink(parent: Ino, name: Name)
    | Symlink(parent: Ino, name: Name, target: string)
    | Hardlink(ino: Ino, parent: Ino, name: Name)
    | Readlink(ino: Ino)
    | Rename(oldParent: Ino, oldName: Name, newParent: Ino, newName: Name)

  datatype Reply = Found(found: Option<Attr>) | Made(attr: Attr) | Target(target: Option<string>) | Done

  type Outcome = Result<Reply, VfsError>

  /** Rejects empty, dotted, overlong and separator- or NUL-containing names. */
  function ValidateName(name: Name): Option<VfsError> {
    if name == "" || name == "." || name == ".." then Some(InvalidPath)
    else if |name| > MAX_NAME_LEN then Some(NameTooLong)
    else if '/' in name || '\0' in name then Some(InvalidPath)
    else None
  }

  // ---- The reference filesystem ----

  datatype Node =
    | FileNode(nlink: nat)
    | DirNode(nlink: nat, children: map<Name, Ino>)
    | LinkNode(nlink: nat, target: string)

  datatype Mem = Mem(nodes: map<Ino, Node>, next: Ino)

  const EMPTY_MEM := Mem(map[ROOT := DirNode(2, map[])], ROOT + 1)

  function NodeKind(n: Node): Kind {
    if n.DirNode? then Dir else if n.FileNode? then Regular else SymLink
  }

  function NodeAttr(ino: Ino, n: Node): Attr {
    Attr(ino, NodeKind(n), n.nlink)
  }

  predicate MemIsDir(m: Mem, ino: Ino) {
    ino in m.nodes && m.nodes[ino].DirNode?
  }

  /** Why `ino` cannot be used as a parent directory, if it cannot. */
  function MemParentError(m: Mem, ino: Ino): Option<VfsError> {
    if ino !in m.nodes then Some(NotFound) else if !m.nodes[ino].DirNode? then Some(NotADirectory) else None
  }

  /** The child found under a name, or the error of looking for it. */
  function MemChild(m: Mem, parent: Ino, name: Name): Result<Ino, VfsError> {
    var bad := MemParentError(m, parent);
    if bad.Some? then Err(bad.value)
    else if name !in m.nodes[parent].children then Err(NotFound)
    else Ok(m.nodes[parent].children[name])
  }

  function WithNlink(n: Node, nlink: nat): Node {
    match n
    case FileNode(_) => FileNode(nlink)
    case DirNode(_, children) => DirNode(nlink, children)
    case LinkNode(_, target) => LinkNode(nlink, target)
  }

  function WithChild(d: Node, name: Name, ino: Ino): Node
    requires d.DirNode?
  {
    DirNode(d.nlink, d.children[name := ino])
  }

  function WithoutChild(d: Node, name: Name): Node
    requires d.DirNode?
  {
    DirNode(d.nlink, d.children - {name})
  }

  /** A new node under `parent`; `up` is what it adds to the parent's link count. */
  function MemAdd(m: Mem, parent: Ino, name: Name, node: Node, up: nat): (Mem, Outcome) {
    var bad := MemParentError(m, parent);
    if bad.Some? then (m, Err(bad.value))
    else if name in m.nodes[parent].children then (m, Err(AlreadyExists))
    else
      var nodes := m.nodes[m.next := node];
      if !(parent in nodes && nodes[parent].DirNode?) then (Mem(nodes, m.next + 1), Ok(Made(NodeAttr(m.next, node))))
      else
        var dir := WithNlink(WithChild(nodes[parent], name, m.next), nodes[parent].nlink + up);
        (Mem(nodes[parent := dir], m.next + 1), Ok(Made(NodeAttr(m.next, node))))
  }

  function MemRmdir(m: Mem, parent: Ino, name: Name): (Mem, Outcome) {
    var child := MemChild(m, parent, name);
    if child.Err? then (m, Err(child.error))
    else if child.value !in m.nodes then (m, Err(NotFound))
    else if !m.nodes[child.value].DirNode? then (m, Err(NotADirectory))
    else if m.nodes[child.value].children != map[] then (m, Err(NotEmpty))
    else
      var dir := WithoutChild(m.nodes[parent], name);
      var less := if dir.nlink > 2 then WithNlink(dir, dir.nlink - 1) else dir;
      (m.(nodes := m.nodes[parent := less] - {child.value}), Ok(Done))
  }

  function MemUnlink(m: Mem, parent: Ino, name: Name): (Mem, Outcome) {
    var child := MemChild(m, parent, name);
    if child.Err? then (m, Err(child.error))
    else if child.value !in m.nodes then (m, Err(NotFound))
    else if m.nodes[child.value].DirNode? then (m, Err(IsADirectory))
    else
      var nodes := m.nodes[parent := WithoutChild(m.nodes[parent], name)];
      var node := m.nodes[child.value];
      if node.nlink > 1 then (m.(nodes := nodes[child.value := WithNlink(node, node.nlink - 1)]), Ok(Done))
      else (m.(nodes := nodes - {child.value}), Ok(Done))
  }

  function MemHardlink(m: Mem, ino: Ino, parent: Ino, name: Name): (Mem, Outcome) {
    if ino !in m.nodes then (m, Err(NotFound))
    else if m.nodes[ino].DirNode? then (m, Err(IsADirectory))
    else
      var bad := MemParentError(m, parent);
      if bad.Some? then (m, Err(bad.value))
      else if name in m.nodes[parent].children then (m, Err(AlreadyExists))
      else
        var node := WithNlink(m.nodes[ino], m.nodes[ino].nlink + 1);
        (m.(nodes := m.nodes[ino := node][parent := WithChild(m.nodes[parent], name, ino)]),
         Ok(Made(NodeAttr(ino, node))))
  }

  /** Whether replacing `dst` by `src` is refused; a missing node counts as not a directory. */
  function MemReplaceError(m: Mem, src: Ino, dst: Ino): Option<VfsError> {
    if MemIsDir(m, src) && !MemIsDir(m, dst) then Some(NotADirectory)
    else if !MemIsDir(m, src) && MemIsDir(m, dst) then Some(IsADirectory)
    else if MemIsDir(m, dst) && m.nodes[dst].children != map[] then Some(NotEmpty)
    else None
  }

  function MemMove(nodes: map<Ino, Node>, oldParent: Ino, oldName: Name, newParent: Ino, newName: Name, src: Ino)
    : map<Ino, Node>
  {
    var taken := if oldParent in nodes && nodes[oldParent].DirNode?
                 then nodes[oldParent := WithoutChild(nodes[oldParent], oldName)] else nodes;
    if newParent in taken && taken[newParent].DirNode?
    then taken[newParent := WithChild(taken[newParent], newName, src)] else taken
  }

  function MemRename(m: Mem, oldParent: Ino, oldName: Name, newParent: Ino, newName: Name): (Mem, Outcome) {
    var src := MemChild(m, oldParent, oldName);
    if src.Err? then (m, Err(src.error))
    else
      var bad := MemParentError(m, newParent);
      if bad.Some? then (m, Err(bad.value))
      else if newName !in m.nodes[newParent].children then
        (m.(nodes := MemMove(m.nodes, oldParent, oldName, newParent, newName, src.value)), Ok(Done))
      else
        var dst := m.nodes[newParent].children[newName];
        if dst == src.value then (m, Ok(Done))
        else
          var refused := MemReplaceError(m, src.value, dst);
          if refused.Some? then (m, Err(refused.value))
          else (m.(nodes := MemMove(m.nodes - {dst}, oldParent, oldName, newParent, newName, src.value)), Ok(Done))
  }

  /** First name the operation has to validate that is not valid. */
  function NameError(op: Op): Option<VfsError> {
    match op
    case Readlink(_) => None
    case Rename(_, oldName, _, newName) =>
      if ValidateName(oldName).Some? then ValidateName(oldName) else ValidateName(newName)
    case Lookup(_, name) => ValidateName(name)
    case Mkdir(_, name) => ValidateName(name)
    case Rmdir(_, name) => ValidateName(name)
    case Create(_, name) => ValidateName(name)
    case Unlink(_, name) => ValidateName(name)
    case Symlink(_, name, _) => ValidateName(name)
    case Hardlink(_, _, name) => ValidateName(name)
  }

  function MemStep(m: Mem, op: Op): (Mem, Outcome) {
    if NameError(op).Some? then (m, Err(NameError(op).value))
    else
      match op
      case Lookup(parent, name) =>
        var bad := MemParentError(m, parent);
        if bad.Some? then (m, Err(bad.value))
        else if name !in m.nodes[parent].children then (m, Ok(Found(None)))
        else
          var child := m.nodes[parent].children[name];
          (m, Ok(Found(if child in m.nodes then Some(NodeAttr(child, m.nodes[child])) else None)))
      case Mkdir(parent, name) => MemAdd(m, parent, name, DirNode(2, map[]), 1)
      case Rmdir(parent, name) => MemRmdir(m, parent, name)
      case Create(parent, name) => MemAdd(m, parent, name, FileNode(1), 0)
      case Unlink(parent, name) => MemUnlink(m, parent, name)
      case Symlink(parent, name, target) => MemAdd(m, parent, name, LinkNode(1, target), 0)
      case Hardlink(ino, parent, name) => MemHardlink(m, ino, parent, name)
      case Readlink(ino) =>
        if ino !in m.nodes then (m, Ok(Target(None)))
        else if !m.nodes[ino].LinkNode? then (m, Err(NotASymlink))
        else (m, Ok(Target(Some(m.nodes[ino].target))))
      case Rename(oldParent, oldName, newParent, newName) => MemRename(m, oldParent, oldName, newParent, newName)
  }

  // ---- The SQLite filesystem, offline ----

  datatype Inode = Inode(kind: Kind, nlink: int)

  /** The tables, the next AUTOINCREMENT inode number, and the dentry cache. */
  datatype Sql = Sql(inodes: map<Ino, Inode>, dentries: map<Key, Ino>, symlinks: map<Ino, string>,
                     next: Ino, cache: map<Key, Ino>)

  const EMPTY_SQL := Sql(map[ROOT := Inode(Dir, 2)], map[], map[], ROOT + 1, map[])

  function SqlParentError(s: Sql, ino: Ino): Option<VfsError> {
    if ino !in s.inodes then Some(NotFound) else if s.inodes[ino].kind != Dir then Some(NotADirectory) else None
  }

  function SqlAttr(s: Sql, ino: Ino): Option<Attr> {
    if ino in s.inodes then Some(Attr(ino, s.inodes[ino].kind, s.inodes[ino].nlink)) else None
  }

  predicate HasEntries(s: Sql, ino: Ino) {
    exists k :: k in s.dentries && k.0 == ino
  }

  /** A cache put, after which the LRU may have evicted anything. */
  function Cached(cache: map<Key, Ino>, k: Key, ino: Ino, victims: set<Key>): map<Key, Ino> {
    cache[k := ino] - victims
  }

  function SqlLookup(s: Sql, parent: Ino, name: Name, victims: set<Key>): (Sql, Outcome) {
    var bad := SqlParentError(s, parent);
    var k := (parent, name);
    if bad.Some? then (s, Err(bad.value))
    else if k in s.cache then (s, Ok(Found(SqlAttr(s, s.cache[k]))))
    else if k in s.dentries then
      (s.(cache := Cached(s.cache, k, s.dentries[k], victims)), Ok(Found(SqlAttr(s, s.dentries[k]))))
    else (s, Ok(Found(None)))
  }

  /** A new inode under `parent`; `up` is what it adds to the parent's link count. */
  function SqlAdd(s: Sql, parent: Ino, name: Name, row: Inode, target: Option<string>, up: nat, victims: set<Key>)
    : (Sql, Outcome)
  {
    var bad := SqlParentError(s, parent);
    var k := (parent, name);
    if bad.Some? then (s, Err(bad.value))
    else if k in s.dentries then (s, Err(AlreadyExists))
    else
      var inodes := s.inodes[s.next := row];
      (Sql(inodes[parent := inodes[parent].(nlink := inodes[parent].nlink + up)],
           s.dentries[k := s.next],
           if target.Some? then s.symlinks[s.next := target.value] else s.symlinks,
           s.next + 1,
           Cached(s.cache, k, s.next, victims)),
       Ok(Made(Attr(s.next, row.kind, row.nlink))))
  }

  function SqlRmdir(s: Sql, parent: Ino, name: Name): (Sql, Outcome) {
    var k := (parent, name);
    if k !in s.dentries then (s, Err(NotFound))
    else
      var child := s.dentries[k];
      if child !in s.inodes then (s, Err(NotFound))
      else if s.inodes[child].kind != Dir then (s, Err(NotADirectory))
      else if HasEntries(s, child) then (s, Err(NotEmpty))
      else
        var inodes := s.inodes - {child};
        var fewer := if parent in inodes
                     then
                       var n := inodes[parent].nlink - 1;
                       inodes[parent := inodes[parent].(nlink := if n > 2 then n else 2)]
                     else inodes;
        (s.(inodes := fewer, dentries := s.dentries - {k}, cache := s.cache - {k}), Ok(Done))
  }

  function SqlUnlink(s: Sql, parent: Ino, name: Name): (Sql, Outcome) {
    var k := (parent, name);
    if k !in s.dentries then (s, Err(NotFound))
    else
      var child := s.dentries[k];
      if child !in s.inodes then (s, Err(NotFound))
      else if s.inodes[child].kind == Dir then (s, Err(IsADirectory))
      else
        var row := s.inodes[child].(nlink := s.inodes[child].nlink - 1);
        var gone := row.nlink <= 0;
        (s.(inodes := if gone then s.inodes - {child} else s.inodes[child := row],
            symlinks := if gone then s.symlinks - {child} else s.symlinks,
            dentries := s.dentries - {k}, cache := s.cache - {k}), Ok(Done))
  }

  function SqlHardlink(s: Sql, ino: Ino, parent: Ino, name: Name, victims: set<Key>): (Sql, Outcome) {
    var k := (parent, name);
    if ino !in s.inodes then (s, Err(NotFound))
    else if s.inodes[ino].kind == Dir then (s, Err(IsADirectory))
    else
      var bad := SqlParentError(s, parent);
      if bad.Some? then (s, Err(bad.value))
      else if k in s.dentries then (s, Err(AlreadyExists))
      else
        var row := s.inodes[ino].(nlink := s.inodes[ino].nlink + 1);
        (s.(inodes := s.inodes[ino := row], dentries := s.dentries[k := ino],
            cache := Cached(s.cache, k, ino, victims)),
         Ok(Made(Attr(ino, row.kind, row.nlink))))
  }

  function SqlReplaceError(s: Sql, src: Ino, dst: Ino): Option<VfsError>
    requires src in s.inodes
  {
    if dst !in s.inodes then Some(Io)
    else if s.inodes[src].kind == Dir && s.inodes[dst].kind != Dir then Some(NotADirectory)
    else if s.inodes[src].kind != Dir && s.inodes[dst].kind == Dir then Some(IsADirectory)
    else if s.inodes[dst].kind == Dir && HasEntries(s, dst) then Some(NotEmpty)
    else None
  }

  /** The dentry update of a rename, with the three cache statements behind it. */
  function SqlMove(s: Sql, from: Key, to: Key, src: Ino, victims: set<Key>): Sql {
    s.(dentries := (s.dentries - {from})[to := src], cache := Cached(s.cache - {from} - {to}, to, src, victims))
  }

  function SqlRename(s: Sql, from: Key, to: Key, victims: set<Key>): (Sql, Outcome) {
    if from !in s.dentries then (s, Err(NotFound))
    else
      var src := s.dentries[from];
      var bad := SqlParentError(s, to.0);
      if bad.Some? then (s, Err(bad.value))
      else if src !in s.inodes then (s, Err(Io))
      else if to !in s.dentries then (SqlMove(s, from, to, src, victims), Ok(Done))
      else
        var dst := s.dentries[to];
        if dst == src then (s, Ok(Done))
        else
          var refused := SqlReplaceError(s, src, dst);
          if refused.Some? then (s, Err(refused.value))
          else
            var cleared := s.(dentries := s.dentries - {to}, symlinks := s.symlinks - {dst},
                              inodes := s.inodes - {dst});
            (SqlMove(cleared, from, to, src, victims), Ok(Done))
  }

  function SqlStep(s: Sql, op: Op, victims: set<Key>): (Sql, Outcome) {
    if NameError(op).Some? then (s, Err(NameError(op).value))
    else
      match op
      case Lookup(parent, name) => SqlLookup(s, parent, name, victims)
      case Mkdir(parent, name) => SqlAdd(s, parent, name, Inode(Dir, 2), None, 1, victims)
      case Rmdir(parent, name) => SqlRmdir(s, parent, name)
      case Create(parent, name) => SqlAdd(s, parent, name, Inode(Regular, 1), None, 0, victims)
      case Unlink(parent, name) => SqlUnlink(s, parent, name)
      case Symlink(parent, name, target) => SqlAdd(s, parent, name, Inode(SymLink, 1), Some(target), 0, victims)
      case Hardlink(ino, parent, name) => SqlHardlink(s, ino, parent, name, victims)
      case Readlink(ino) =>
        if ino !in s.inodes then (s, Ok(Target(None)))
        else if s.inodes[ino].kind != SymLink then (s, Err(NotASymlink))
        else if ino !in s.symlinks then (s, Err(NotFound))
        else (s, Ok(Target(Some(s.symlinks[ino]))))
      case Rename(oldParent, oldName, newParent, newName) =>
        SqlRename(s, (oldParent, oldName), (newParent, newName), victims)
  }
}
