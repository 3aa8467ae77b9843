/** The volume's byte-bounded cache: entries in order of use, the oldest evicted first. */
module SessionCaches {
  import opened Wrappers

  type Path = string

  /** `expires` is the time from which the entry is gone, if it ever is. */
  datatype Entry = Entry(content: string, expires: Option<int>, bytes: nat)

  function Utf8Width(c: char): nat {
    var n := c as int;
    if n < 0x80 then 1 else if n < 0x800 then 2 else if n < 0x1_0000 then 3 else 4
  }

  function ByteLength(s: string): nat {
    if s == "" then 0 else Utf8Width(s[0]) + ByteLength(s[1..])
  }

  // ---- Orders of use ----

  ghost predicate Distinct(order: seq<Path>) {
    forall i, j | 0 <= i < j < |order| :: order[i] != order[j]
  }

  function Without(order: seq<Path>, p: Path): seq<Path> {
    if order == [] then [] else (if order[0] == p then [] else [order[0]]) + Without(order[1..], p)
  }

  function Total(order: seq<Path>, entries: map<Path, Entry>): nat
    requires forall p | p in order :: p in entries
  {
    if order == [] then 0 else entries[order[0]].bytes + Total(order[1..], entries)
  }

  /** What eviction leaves: the oldest go until the rest fits or one is left. */
  function Kept(order: seq<Path>, entries: map<Path, Entry>, maxBytes: nat): (r: seq<Path>)
    requires forall p | p in order :: p in entries
    ensures forall p | p in r :: p in order
  {
    if |order| <= 1 || Total(order, entries) <= maxBytes then order else Kept(order[1..], entries, maxBytes)
  }

  lemma {:induction false} WithoutIs(order: seq<Path>, p: Path)
    requires Distinct(order)
    ensures Distinct(Without(order, p)) && forall q :: q in Without(order, p) <==> q in order && q != p
  {
    if order != [] {
      WithoutIs(order[1..], p);
      var rest := Without(order[1..], p);
      assert order[0] !in order[1..];
      assert forall i | 0 <= i < |rest| :: rest[i] in rest;
    }
  }

  lemma {:induction false} TotalWithout(order: seq<Path>, entries: map<Path, Entry>, p: Path)
    requires Distinct(order) && p in order && forall q | q in order :: q in entries
    ensures (forall q | q in Without(order, p) :: q in entries)
    ensures Total(Without(order, p), entries) == Total(order, entries) - entries[p].bytes
  {
    WithoutIs(order, p);
    if order[0] == p {
      assert p !in order[1..];
      WithoutAbsent(order[1..], p);
      assert Without(order, p) == order[1..];
    } else {
      TotalWithout(order[1..], entries, p);
      var rest := Without(order[1..], p);
      assert ([order[0]] + rest)[1..] == rest;
    }
  }

  lemma {:induction false} WithoutAbsent(order: seq<Path>, p: Path)
    requires p !in order
    ensures Without(order, p) == order
  {
    if order != [] {
      WithoutAbsent(order[1..], p);
    }
  }

  lemma {:induction false} TotalSame(order: seq<Path>, a: map<Path, Entry>, b: map<Path, Entry>)
    requires forall p | p in order :: p in a && p in b && a[p] == b[p]
    ensures Total(order, a) == Total(order, b)
  {
    if order != [] {
      assert order[0] in order;
      TotalSame(order[1..], a, b);
    }
  }

  lemma {:induction false} TotalAppend(order: seq<Path>, entries: map<Path, Entry>, p: Path)
    requires (forall q | q in order :: q in entries) && p in entries
    ensures Total(order + [p], entries) == Total(order, entries) + entries[p].bytes
  {
    if order != [] {
      assert (order + [p])[1..] == order[1..] + [p];
      TotalAppend(order[1..], entries, p);
    }
  }

  lemma {:induction false} KeptIsSuffix(order: seq<Path>, entries: map<Path, Entry>, maxBytes: nat)
    requires (forall p | p in order :: p in entries) && order != []
    ensures
      var kept := Kept(order, entries, maxBytes);
      1 <= |kept| <= |order| && kept == order[|order| - |kept|..] && (|kept| == 1 || Total(kept, entries) <= maxBytes)
  {
    if |order| > 1 && Total(order, entries) > maxBytes {
      KeptIsSuffix(order[1..], entries, maxBytes);
    }
  }

  /** Eviction keeps the longest most recent part that fits: any longer one does not. */
  lemma {:induction false} KeptIsLongest(order: seq<Path>, entries: map<Path, Entry>, maxBytes: nat, k: nat)
    requires (forall p | p in order :: p in entries) && k < |order| - |Kept(order, entries, maxBytes)|
    ensures Total(order[k..], entries) > maxBytes
  {
    if k == 0 {
      assert order[0..] == order;
    } else {
      KeptIsLongest(order[1..], entries, maxBytes, k - 1);
      assert order[1..][k - 1..] == order[k..];
    }
  }

  lemma PutBack(entries: map<Path, Entry>, p: Path, e: Entry)
    ensures (entries - {p})[p := e] == entries[p := e]
  {
  }

  // ---- The cache ----

  class SessionCache {
    const ttl: Option<nat>
    const maxBytes: nat
    var order: seq<Path>
    var entries: map<Path, Entry>
    var currentBytes: int

    /** The order lists the entries once each, and the counter is the sum of their sizes. */
    ghost predicate Valid()
      reads this
    {
      && Distinct(order) && (forall p :: p in order <==> p in entries) && currentBytes == Total(order, entries)
      && forall p | p in entries :: entries[p].bytes == ByteLength(entries[p].content)
    }

    /** `ttl` is the lifetime of entries, or none if they do not expire. */
    constructor (ttl: Option<nat>, maxBytes: nat)
      ensures Valid() && entries == map[] && this.ttl == ttl && this.maxBytes == maxBytes
    {
      this.ttl, this.maxBytes := ttl, maxBytes;
      order, entries, currentBytes := [], map[], 0;
    }

    predicate Live(e: Entry, now: int) {
      e.expires.None? || now < e.expires.value
    }

    /** A live entry is moved to the end; a dead one is dropped. */
    method Get(path: Path, now: int) returns (content: Option<string>)
      requires Valid()
      modifies this
      ensures Valid()
      ensures content == if path in old(entries) && Live(old(entries)[path], now) then Some(old(entries)[path].content)
              else None
      ensures entries == if content.None? then old(entries) - {path} else old(entries)
      ensures order == Without(old(order), path) + if content.Some? then [path] else []
    {
      if path !in entries {
        WithoutAbsent(order, path);
        assert entries - {path} == entries;
        return None;
      }
      var entry := entries[path];
      Delete(path);
      if !Live(entry, now) {
        return None;
      }
      Append(path, entry);
      content := Some(entry.content);
    }

    method Append(path: Path, entry: Entry)
      requires Valid() && path !in entries && entry.bytes == ByteLength(entry.content)
      modifies this
      ensures Valid() && entries == old(entries)[path := entry] && order == old(order) + [path]
    {
      TotalSame(order, entries, entries[path := entry]);
      TotalAppend(order, entries[path := entry], path);
      order, entries, currentBytes := order + [path], entries[path := entry], currentBytes + entry.bytes;
    }

    /** The entry goes to the end; then the oldest are evicted until the rest fits or is alone. */
    method Set(path: Path, content: string, now: int)
      requires Valid()
      modifies this
      ensures Valid() && path in entries && path !in Without(old(order), path)
      ensures
        var entry := Entry(content, if ttl.None? then None else Some(now + ttl.value), ByteLength(content));
        KeepsOf(Without(old(order), path) + [path], old(entries)[path := entry])
    {
      var entry := Entry(content, if ttl.None? then None else Some(now + ttl.value), ByteLength(content));
      Renew(path, entry);
      Evict();
    }

    /** The cache holds what eviction leaves of these entries, unchanged. */
    ghost predicate KeepsOf(recent: seq<Path>, all: map<Path, Entry>)
      reads this
    {
      && (forall p | p in recent :: p in all) && order == Kept(recent, all, maxBytes)
      && entries.Keys == (set p | p in order) && forall p | p in entries :: p in all && entries[p] == all[p]
    }

    method Renew(path: Path, entry: Entry)
      requires Valid() && entry.bytes == ByteLength(entry.content)
      modifies this
      ensures Valid() && entries == old(entries)[path := entry]
      ensures path !in Without(old(order), path) && order == Without(old(order), path) + [path]
    {
      PutBack(entries, path, entry);
      Delete(path);
      Append(path, entry);
    }

    method Evict()
      requires Valid() && order != []
      modifies this
      ensures Valid() && old(order)[|old(order)| - 1] in entries && KeepsOf(old(order), old(entries))
    {
      ghost var all, last := entries, order[|order| - 1];
      while currentBytes > maxBytes && |order| > 1
        invariant Valid() && order != [] && order[|order| - 1] == last
        invariant (forall p | p in order :: p in all) && Kept(order, all, maxBytes) == Kept(old(order), all, maxBytes)
        invariant forall p | p in entries :: p in all && entries[p] == all[p]
        decreases |order|
      {
        TotalSame(order, entries, all);
        EvictOldest();
      }
      TotalSame(order, entries, all);
    }

    method EvictOldest()
      requires Valid() && order != []
      modifies this
      ensures Valid() && order == old(order)[1..] && entries == old(entries) - {old(order)[0]}
    {
      var oldest := order[0];
      assert oldest !in order[1..];
      TotalSame(order[1..], entries, entries - {oldest});
      currentBytes := currentBytes - entries[oldest].bytes;
      order, entries := order[1..], entries - {oldest};
    }

    method Delete(path: Path)
      requires Valid()
      modifies this
      ensures Valid() && entries == old(entries) - {path} && order == Without(old(order), path)
    {
      WithoutIs(order, path);
      if path in entries {
        TotalWithout(order, entries, path);
        TotalSame(Without(order, path), entries, entries - {path});
        currentBytes := currentBytes - entries[path].bytes;
        order, entries := Without(order, path), entries - {path};
      } else {
        WithoutAbsent(order, path);
      }
    }
  }
}
