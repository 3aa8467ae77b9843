/** The cached volume over the document server: to its one writer it is a map from paths to texts. */
module Volumes {
  import opened Wrappers
  import opened Strings
  import opened PathIndexes
  import opened SessionCaches

  type Path = string

  // ---- The server ----

  datatype Stored = Stored(path: Path, content: string)

  /** How the network and the server treat one call: done, refused as busy, never arrived, or done
      with the reply lost. */
  datatype Weather = Fair | Busy | Broken | Lost

  datatype VolumeError = NotWritable(WriteError) | NoEntry | Exists | BusyDoc | Io

  class Server {
    var docs: map<DocId, Stored>
    var next: DocId

    ghost predicate Valid()
      reads this
    {
      forall d | d in docs :: d < next
    }

    constructor ()
      ensures Valid() && docs == map[]
    {
      docs, next := map[], 0;
    }

    /** A listing by path, one item long: that path's document; a filter ending in a slash may give
        any document below it. */
    method First(filter: Path) returns (r: Option<DocId>)
      ensures r.Some? ==>
                r.value in docs && (docs[r.value].path == filter || (filter != "" && filter[|filter| - 1] == '/'))
      ensures r.None? ==> forall d | d in docs :: docs[d].path != filter
    {
      if d :| d in docs && docs[d].path == filter {
        return Some(d);
      }
      if filter != "" && filter[|filter| - 1] == '/' {
        if d :| d in docs && filter <= docs[d].path {
          return Some(d);
        }
      }
      r := None;
    }

    method Add(path: Path, content: string) returns (d: DocId)
      requires Valid()
      modifies this
      ensures Valid() && d == old(next) && next == d + 1 && d !in old(docs)
              && docs == old(docs)[d := Stored(path, content)]
    {
      d := next;
      docs, next := docs[d := Stored(path, content)], next + 1;
    }

    /** With text, an update sets the text alone; without, the path. */
    method Update(d: DocId, content: Option<string>, path: Path)
      requires Valid() && d in docs
      modifies this
      ensures Valid() && next == old(next)
      ensures docs == old(docs)[d := if content.Some? then old(docs)[d].(content := content.value)
              else old(docs)[d].(path := path)]
    {
      docs := docs[d := if content.Some? then docs[d].(content := content.value) else docs[d].(path := path)];
    }

    method Delete(d: DocId)
      requires Valid()
      modifies this
      ensures Valid() && next == old(next) && docs == old(docs) - {d}
    {
      docs := docs - {d};
    }
  }

  // ---- What the volume means ----

  /** The index is the server's listing. */
  ghost predicate Listed(files: map<Path, DocId>, docs: map<DocId, Stored>) {
    && (forall p | p in files :: files[p] in docs && docs[files[p]].path == p)
    && forall d | d in docs :: docs[d].path in files && files[docs[d].path] == d
  }

  /** Paths and their texts. */
  ghost function Texts(files: map<Path, DocId>, docs: map<DocId, Stored>): map<Path, string>
    requires Listed(files, docs)
  {
    map p | p in files :: docs[files[p]].content
  }

  /** Every cached text is the server's. */
  ghost predicate Fresh(entries: map<Path, Entry>, texts: map<Path, string>) {
    forall p | p in entries :: p in texts && texts[p] == entries[p].content
  }

  /** The cache holds what it held, and the path's text as given, or less. */
  ghost predicate CachedOnly(before: map<Path, Entry>, after: map<Path, Entry>, path: Path, content: string) {
    forall p | p in after ::
      if p == path then after[p].content == content else p in before && after[p].content == before[p].content
  }

  lemma StaysFresh(before: map<Path, Entry>, after: map<Path, Entry>, path: Path, content: string,
                   texts: map<Path, string>)
    requires Fresh(before, texts) && CachedOnly(before, after, path, content)
    ensures Fresh(after, texts[path := content])
  {
  }

  /** No file lies under another. */
  ghost predicate Tidy(files: set<Path>) {
    PrefixFree(files) && forall p | p in files :: WellShaped(p)
  }

  /** The index is the listing, orderly, and the cache holds nothing but texts of it. */
  ghost predicate Consistent(files: map<Path, DocId>, docs: map<DocId, Stored>, entries: map<Path, Entry>) {
    Listed(files, docs) && Tidy(files.Keys) && Fresh(entries, Texts(files, docs))
  }

  lemma WritableKeepsTidy(files: set<Path>, path: Path)
    requires Tidy(files) && WriteErrorFor(files, path).None?
    ensures Tidy(files + {path})
  {
    CheckedIsWellShaped(path);
    AdmittedIffPrefixFree(files, path);
  }

  lemma MoveKeepsTidy(files: set<Path>, from: Path, to: Path)
    requires Tidy(files) && WriteErrorFor(files, to).None?
    ensures Tidy(files - {from} + {to})
  {
    WritableKeepsTidy(files, to);
  }

  lemma NoSlashEnds(files: set<Path>, path: Path)
    requires Tidy(files)
    ensures path != "" && path[|path| - 1] == '/' ==> path !in files
  {
    if path in files {
      NotSlashEnded(path);
    }
  }

  lemma ForgetsNothing(files: map<Path, DocId>, docs: map<DocId, Stored>, entries: map<Path, Entry>, path: Path)
    requires Consistent(files, docs, entries) && path !in files
    ensures files - {path} == files && Consistent(files, docs, entries - {path})
  {
    assert files - {path} == files;
  }

  // ---- Operations on the map ----

  datatype Op = Add(path: Path, content: string) | Get(path: Path) | Remove(path: Path) | Move(from: Path, to: Path)

  datatype Reply = Done | Text(text: Option<string>) | Failed(error: VolumeError)

  function ReplyOf(e: Option<VolumeError>): Reply {
    if e.Some? then Failed(e.value) else Done
  }

  /** What an operation does to the texts, with the listing's and the call's weather, and the error it
      reports. */
  ghost function Apply(texts: map<Path, string>, op: Op, listing: bool, call: Weather)
    : (map<Path, string>, Option<VolumeError>)
  {
    match op
    case Add(path, content) =>
      if WriteErrorFor(texts.Keys, path).Some? then (texts, Some(NotWritable(WriteErrorFor(texts.Keys, path).value)))
      else if call != Fair then (texts, Some(Io))
      else (texts[path := content], None)
    case Get(path) => (texts, None)
    case Remove(path) =>
      if path !in texts then (texts, if listing then None else Some(Io))
      else if call == Fair then (texts - {path}, None)
      else (texts, Some(if call == Busy then BusyDoc else Io))
    case Move(from, to) =>
      if MoveError(texts, from, to, listing).Some? then (texts, MoveError(texts, from, to, listing))
      else if call == Fair then ((texts - {from})[to := texts[from]], None)
      else (texts, Some(if call == Busy then BusyDoc else Io))
  }

  lemma MoveMeans(texts: map<Path, string>, from: Path, to: Path, listing: bool, call: Weather)
    ensures Settled(texts, Move(from, to), listing, call) <==> MoveError(texts, from, to, listing).Some? || call != Lost
    ensures MoveError(texts, from, to, listing).None? ==>
              && WriteErrorFor(texts.Keys, to).None?
              && Apply(texts, Move(from, to), listing, call)
                 == if call == Fair then ((texts - {from})[to := texts[from]], None)
                    else (texts, Some(if call == Busy then BusyDoc else Io))
    ensures MoveError(texts, from, to, listing).Some? ==>
              Apply(texts, Move(from, to), listing, call) == (texts, MoveError(texts, from, to, listing))
  {
  }

  /** Why a move is refused before the server is asked to make it: the new path cannot be written, the
      old one has no document or the new one has, or the listing cannot tell. */
  ghost function MoveError(texts: map<Path, string>, from: Path, to: Path, listing: bool): (e: Option<VolumeError>)
    ensures e.None? ==> from in texts && to !in texts
  {
    if WriteErrorFor(texts.Keys, to).Some? then Some(NotWritable(WriteErrorFor(texts.Keys, to).value))
    else if from !in texts then Some(if listing then NoEntry else Io)
    else if to in texts then Some(Exists)
    else if !listing then Some(Io)
    else None
  }

  /** The operation comes to a call that would change the server. */
  ghost predicate Sends(texts: map<Path, string>, op: Op, listing: bool) {
    match op
    case Add(path, _) => WriteErrorFor(texts.Keys, path).None?
    case Get(_) => false
    case Remove(path) => path in texts
    case Move(from, to) => MoveError(texts, from, to, listing).None?
  }

  /** The operation's reply is not lost on a call that changed the server. */
  ghost predicate Settled(texts: map<Path, string>, op: Op, listing: bool, call: Weather) {
    call == Lost ==> !Sends(texts, op, listing)
  }

  /** An operation, the time, and the weather it meets. */
  datatype Call = Call(op: Op, listing: bool, weather: Weather, now: int)

  /** What the operation may answer: the text, for a read, unless the listing fails; the error of
      `Apply` for the others. */
  ghost predicate Answers(texts: map<Path, string>, c: Call, reply: Reply) {
    match c.op
    case Get(path) =>
      reply == Text(if path in texts then Some(texts[path]) else None) || (!c.listing && reply == Failed(Io))
    case _ => reply == ReplyOf(Apply(texts, c.op, c.listing, c.weather).1)
  }

  ghost function ApplyAll(texts: map<Path, string>, calls: seq<Call>): map<Path, string> {
    if calls == [] then texts
    else
      var c := calls[|calls| - 1];
      Apply(ApplyAll(texts, calls[..|calls| - 1]), c.op, c.listing, c.weather).0
  }

  ghost predicate AllSettled(texts: map<Path, string>, calls: seq<Call>) {
    forall k | 0 <= k < |calls| ::
      Settled(ApplyAll(texts, calls[..k]), calls[k].op, calls[k].listing, calls[k].weather)
  }

  /** No run puts a file under another. */
  lemma {:induction false} RunsStayTidy(texts: map<Path, string>, calls: seq<Call>)
    requires Tidy(texts.Keys)
    ensures Tidy(ApplyAll(texts, calls).Keys)
  {
    if calls != [] {
      RunsStayTidy(texts, calls[..|calls| - 1]);
      ApplyStaysTidy(ApplyAll(texts, calls[..|calls| - 1]), calls[|calls| - 1]);
    }
  }

  lemma ApplyStaysTidy(texts: map<Path, string>, c: Call)
    requires Tidy(texts.Keys)
    ensures Tidy(Apply(texts, c.op, c.listing, c.weather).0.Keys)
  {
    match c.op
    case Add(path, content) =>
      if WriteErrorFor(texts.Keys, path).None? {
        WritableKeepsTidy(texts.Keys, path);
        assert texts[path := content].Keys == texts.Keys + {path};
      }
    case Get(path) =>
    case Remove(path) =>
    case Move(from, to) =>
      if WriteErrorFor(texts.Keys, to).None? && from in texts {
        MoveKeepsTidy(texts.Keys, from, to);
        assert (texts - {from})[to := texts[from]].Keys == texts.Keys - {from} + {to};
      }
  }

  // ---- The volume ----

  class Volume {
    const server: Server
    const index: PathIndex
    const cache: SessionCache

    /** What holds even after a reply was lost: the parts are sound by themselves, and every id in the
        index was given out by the server. */
    ghost predicate Usable()
      reads this, server, index, cache
    {
      server.Valid() && cache.Valid() && forall p | p in index.files :: index.files[p] < server.next
    }

    ghost predicate Valid()
      reads this, server, index, cache
    {
      Usable() && index.Valid() && Consistent(index.files, server.docs, cache.entries)
    }

    ghost function View(): map<Path, string>
      requires Listed(index.files, server.docs)
      reads this, server, index, cache
    {
      Texts(index.files, server.docs)
    }

    constructor (ttl: Option<nat>, maxBytes: nat)
      ensures Valid() && View() == map[] && fresh(server) && fresh(index) && fresh(cache)
    {
      server := new Server();
      index := new PathIndex();
      cache := new SessionCache(ttl, maxBytes);
    }

    /** `lookupDocId`: the index first, then the server, whose answer is indexed. While the index is
        the listing there is nothing to add to it. */
    method LookupDocId(path: Path, listing: bool) returns (r: Result<Option<DocId>, VolumeError>)
      requires Usable()
      modifies index
      ensures Usable() && (path in old(index.files) ==>
                index.files == old(index.files) && index.byDocId == old(index.byDocId))
      ensures path in old(index.files) ==> r == Ok(Some(old(index.files)[path]))
      ensures r.Ok? && r.value.Some? ==> path in index.files && index.files[path] == r.value.value
      ensures old(Valid()) ==>
                && Valid() && index.files == old(index.files)
                && r == (if path in index.files then Ok(Some(index.files[path]))
                         else if listing then Ok(None) else Err(Io))
    {
      if path in index.files {
        return Ok(Some(index.files[path]));
      }
      if !listing {
        return Err(Io);
      }
      var first := server.First(path);
      if first.Some? && server.docs[first.value].path == path {
        index.Insert(path, first.value);
        return Ok(first);
      }
      r := Ok(None);
    }

    /** `addDoc`. If its reply is lost after the server took the text, the caller is told of a failure,
        and the volume still stands for the server exactly if the path was indexed and no other text
        is cached for it. */
    method AddDoc(path: Path, content: string, call: Weather, now: int) returns (e: Option<VolumeError>)
      requires Valid()
      modifies server, index, cache
      ensures Settled(old(View()), Add(path, content), true, call) ==>
                Valid() && (View(), e) == old(Apply(View(), Add(path, content), true, call))
      ensures !Settled(old(View()), Add(path, content), true, call) ==>
                && e == Some(Io) && index.files == old(index.files) && cache.entries == old(cache.entries)
                && (Valid() <==>
                      path in index.files && (path in cache.entries ==> cache.entries[path].content == content))
    {
      ghost var files, docs, entries := index.files, server.docs, cache.entries;
      ghost var d;
      e, d := AddSteps(path, content, call, now);
      AddMeans(files, docs, entries, index.files, server.docs, cache.entries, path, content, call, d, e);
    }

    /** Its steps, in whatever state earlier lost replies have left; `d` is the document written. */
    method AddSteps(path: Path, content: string, call: Weather, now: int)
      returns (e: Option<VolumeError>, ghost d: DocId)
      requires Usable()
      modifies server, index, cache
      ensures Usable() && (old(index.Valid()) ==> index.Valid())
      ensures AddEffect(old(index.files), old(server.docs), old(cache.entries), index.files, server.docs, cache.entries,
                        path, content, call, d, e)
    {
      d := 0;
      var refused := index.AssertWritable(path);
      if refused.Some? {
        return Some(NotWritable(refused.value)), d;
      }
      if call == Busy || call == Broken || (path in index.files && index.files[path] !in server.docs) {
        return Some(Io), d;
      }
      var id := Upload(path, content);
      d := id;
      if call == Lost {
        return Some(Io), d;
      }
      Record(path, id, content, now);
      e := None;
    }

    /** The document at the path gets the text, or a new one does. */
    method Upload(path: Path, content: string) returns (d: DocId)
      requires Usable() && (path in index.files ==> index.files[path] in server.docs)
      modifies server
      ensures Usable() && server.next >= old(server.next) && d < server.next
      ensures if path in index.files then d == index.files[path] else d !in old(server.docs) && d >= old(server.next)
      ensures server.docs == Uploaded(index.files, old(server.docs), path, content, d)
    {
      if path in index.files {
        d := index.files[path];
        server.Update(d, Some(content), path);
      } else {
        d := server.Add(path, content);
      }
    }

    /** After a write or a read: the document is indexed under its path, and its text cached. */
    method Record(path: Path, d: DocId, content: string, now: int)
      requires cache.Valid()
      modifies index, cache
      ensures cache.Valid() && index.files == old(index.files)[path := d]
      ensures old(index.Valid()) && (d in old(index.byDocId) ==> old(index.byDocId)[d] == path) ==> index.Valid()
      ensures CachedOnly(old(cache.entries), cache.entries, path, content)
    {
      index.Insert(path, d);
      cache.Set(path, content, now);
    }

    /** `getDoc`: the cache if the index knows the path too, else the server. */
    method GetDoc(path: Path, listing: bool, now: int) returns (r: Result<Option<string>, VolumeError>)
      requires Valid()
      modifies index, cache
      ensures Valid() && View() == old(View()) && index.files == old(index.files)
      ensures r.Err? ==> r.error == Io && !listing
      ensures r.Ok? ==> r.value == if path in View() then Some(View()[path]) else None
    {
      var cached := cache.Get(path, now);
      if cached.Some? && path in index.files {
        return Ok(cached);
      }
      r := Fetch(path, listing, now);
    }

    method Fetch(path: Path, listing: bool, now: int) returns (r: Result<Option<string>, VolumeError>)
      requires Valid()
      modifies index, cache
      ensures Valid() && View() == old(View()) && index.files == old(index.files)
      ensures r == if !listing then Err(Io) else Ok(if path in View() then Some(View()[path]) else None)
    {
      if !listing {
        return Err(Io);
      }
      var first := server.First(path);
      if first.None? || server.docs[first.value].path != path {
        NoSlashEnds(index.files.Keys, path);
        Forget(path);
        return Ok(None);
      }
      Remember(path, first.value, now);
      r := Ok(Some(server.docs[first.value].content));
    }

    /** A path the listing does not have. */
    method Forget(path: Path)
      requires Valid() && path !in index.files
      modifies index, cache
      ensures Valid() && View() == old(View()) && index.files == old(index.files)
    {
      ForgetsNothing(index.files, server.docs, cache.entries, path);
      index.Remove(path);
      cache.Delete(path);
    }

    /** A document the listing has at the path. */
    method Remember(path: Path, d: DocId, now: int)
      requires Valid() && d in server.docs && server.docs[d].path == path
      modifies index, cache
      ensures Valid() && View() == old(View()) && index.files == old(index.files)
      ensures path in View() && View()[path] == server.docs[d].content
    {
      ghost var texts, entries := View(), cache.entries;
      assert index.files[path := d] == index.files;
      Record(path, d, server.docs[d].content, now);
      assert texts[path := server.docs[d].content] == texts;
      StaysFresh(entries, cache.entries, path, server.docs[d].content, texts);
    }

    /** `removeDoc`. If the reply is lost after the server deleted the document, the caller is told of a
        failure, and the volume lists what is gone. */
    method RemoveDoc(path: Path, listing: bool, call: Weather) returns (e: Option<VolumeError>)
      requires Valid()
      modifies server, index, cache
      ensures Settled(old(View()), Remove(path), listing, call) ==>
                Valid() && (View(), e) == old(Apply(View(), Remove(path), listing, call))
      ensures !Settled(old(View()), Remove(path), listing, call) ==> e == Some(Io) && !Valid()
    {
      ghost var files, docs := index.files, server.docs;
      if path !in index.files {
        var found := LookupDocId(path, listing);
        return if found.Err? then Some(found.error) else None;
      }
      e := RemoveSteps(path, call);
      if call == Fair {
        RemovedText(files, docs, path);
      }
    }

    /** Its steps for an indexed path, in whatever state; a document the server no longer has counts
        as removed. */
    method RemoveSteps(path: Path, call: Weather) returns (e: Option<VolumeError>)
      requires Usable() && path in index.files
      modifies server, index, cache
      ensures Usable() && (old(index.Valid()) ==> index.Valid())
      ensures e == if call == Fair then None else Some(if call == Busy then BusyDoc else Io)
      ensures server.docs == if call == Fair || call == Lost then old(server.docs) - {old(index.files)[path]}
              else old(server.docs)
      ensures index.files == if call == Fair then old(index.files) - {path} else old(index.files)
      ensures cache.entries == if call == Fair then old(cache.entries) - {path} else old(cache.entries)
    {
      if call == Busy || call == Broken {
        return Some(if call == Busy then BusyDoc else Io);
      }
      server.Delete(index.files[path]);
      if call == Lost {
        return Some(Io);
      }
      index.Remove(path);
      cache.Delete(path);
      e := None;
    }

    /** `moveDoc`: the cached text moves with the document. If the reply is lost after the server moved
        it, the caller is told of a failure, and the volume lists the old path. */
    method MoveDoc(from: Path, to: Path, listing: bool, call: Weather, now: int) returns (e: Option<VolumeError>)
      requires Valid()
      modifies server, index, cache
      ensures Settled(old(View()), Move(from, to), listing, call) ==>
                Valid() && (View(), e) == old(Apply(View(), Move(from, to), listing, call))
      ensures !Settled(old(View()), Move(from, to), listing, call) ==> e == Some(Io) && !Valid() && Usable()
    {
      MoveMeans(View(), from, to, listing, call);
      e := CheckMove(from, to, listing);
      if e.None? {
        e := MoveNow(from, to, call, now);
      }
    }

    /** The move itself, once it has been checked. */
    method MoveNow(from: Path, to: Path, call: Weather, now: int) returns (e: Option<VolumeError>)
      requires Valid() && from in View() && to !in View() && WriteErrorFor(index.files.Keys, to).None?
      modifies server, index, cache
      ensures call == Fair ==> Valid() && View() == (old(View()) - {from})[to := old(View())[from]] && e == None
      ensures call == Busy || call == Broken ==>
                Valid() && View() == old(View()) && e == Some(if call == Busy then BusyDoc else Io)
      ensures call == Lost ==> Usable() && !Valid() && e == Some(Io)
    {
      if call == Busy || call == Broken {
        return Some(if call == Busy then BusyDoc else Io);
      }
      if call == Lost {
        MoveUnnoticed(from, to);
        return Some(Io);
      }
      Relocate(from, to, index.files[from], now);
      e := None;
    }

    /** The server moves the document, and nobody hears of it. */
    method MoveUnnoticed(from: Path, to: Path)
      requires Valid() && from in index.files && from != to
      modifies server
      ensures Usable() && !Valid()
    {
      var d := index.files[from];
      server.Update(d, None, to);
      assert server.docs[d].path != from;
    }

    /** Its checks: the new path, the old document, the place of the new one. */
    method CheckMove(from: Path, to: Path, listing: bool) returns (e: Option<VolumeError>)
      requires Valid()
      modifies index
      ensures Valid() && index.files == old(index.files)
      ensures e == MoveError(View(), from, to, listing)
    {
      assert View().Keys == index.files.Keys;
      var refused := index.AssertWritable(to);
      if refused.Some? {
        return Some(NotWritable(refused.value));
      }
      var source := LookupDocId(from, listing);
      if source.Err? {
        return Some(source.error);
      }
      if source.value.None? {
        return Some(NoEntry);
      }
      var target := LookupDocId(to, listing);
      if target.Ok? && target.value.Some? {
        return Some(Exists);
      }
      e := if target.Err? then Some(target.error) else None;
    }

    method Relocate(from: Path, to: Path, d: DocId, now: int)
      requires Valid() && from in index.files && index.files[from] == d && to !in index.files
      requires WriteErrorFor(index.files.Keys, to).None?
      modifies server, index, cache
      ensures Valid() && View() == (old(View()) - {from})[to := old(View())[from]]
    {
      ghost var files, docs := index.files, server.docs;
      MovedText(files, docs, from, to);
      MoveKeepsTidy(files.Keys, from, to);
      assert (files - {from})[to := d].Keys == files.Keys - {from} + {to};
      server.Update(d, None, to);
      MoveCached(from, to, now, Texts(files, docs));
      index.Remove(from);
      index.Insert(to, d);
    }

    /** The cached text, if live, is cached under the new path instead. */
    method MoveCached(from: Path, to: Path, now: int, ghost before: map<Path, string>)
      requires cache.Valid() && Fresh(cache.entries, before) && from in before && to !in before
      modifies cache
      ensures cache.Valid() && Fresh(cache.entries, (before - {from})[to := before[from]])
    {
      var cached := cache.Get(from, now);
      if cached.Some? {
        cache.Set(to, cached.value, now);
        cache.Delete(from);
      }
    }
  }

  /** The first `k` replies are the map's. */
  ghost predicate AnswersAll(texts: map<Path, string>, calls: seq<Call>, replies: seq<Reply>, k: nat)
    requires k <= |calls| && k <= |replies|
  {
    forall j | 0 <= j < k :: Answers(ApplyAll(texts, calls[..j]), calls[j], replies[j])
  }

  /** Any run of operations whose replies are not lost on a change does to the volume what it does to
      the map, and every reply is the map's, whatever the cache evicts. */
  method Run(v: Volume, calls: seq<Call>) returns (replies: seq<Reply>)
    requires v.Valid() && AllSettled(v.View(), calls)
    modifies v.server, v.index, v.cache
    ensures v.Valid() && v.View() == ApplyAll(old(v.View()), calls)
    ensures |replies| == |calls| && AnswersAll(old(v.View()), calls, replies, |calls|)
  {
    assert calls[..|calls|] == calls;
    ghost var texts := v.View();
    replies := [];
    for k := 0 to |calls|
      invariant |replies| == k && v.Valid() && v.View() == ApplyAll(texts, calls[..k])
                && AnswersAll(texts, calls, replies, k)
    {
      assert Settled(ApplyAll(texts, calls[..k]), calls[k].op, calls[k].listing, calls[k].weather);
      ApplyOneMore(texts, calls, k);
      var reply := Perform(v, calls[k]);
      AnswersOneMore(texts, calls, replies, k, reply);
      replies := replies + [reply];
    }
  }

  lemma AnswersOneMore(texts: map<Path, string>, calls: seq<Call>, replies: seq<Reply>, k: nat, reply: Reply)
    requires k < |calls| && k == |replies| && AnswersAll(texts, calls, replies, k)
    requires Answers(ApplyAll(texts, calls[..k]), calls[k], reply)
    ensures AnswersAll(texts, calls, replies + [reply], k + 1)
  {
    assert forall j | 0 <= j < k :: (replies + [reply])[j] == replies[j];
  }

  lemma ApplyOneMore(texts: map<Path, string>, calls: seq<Call>, k: nat)
    requires k < |calls|
    ensures ApplyAll(texts, calls[..k + 1])
         == Apply(ApplyAll(texts, calls[..k]), calls[k].op, calls[k].listing, calls[k].weather).0
  {
    assert calls[..k + 1][..k] == calls[..k];
  }

  method Perform(v: Volume, c: Call) returns (reply: Reply)
    requires v.Valid() && Settled(v.View(), c.op, c.listing, c.weather)
    modifies v.server, v.index, v.cache
    ensures v.Valid() && v.View() == Apply(old(v.View()), c.op, c.listing, c.weather).0
    ensures Answers(old(v.View()), c, reply)
  {
    match c.op
    case Add(path, content) =>
      var e := v.AddDoc(path, content, c.weather, c.now);
      reply := ReplyOf(e);
    case Get(path) =>
      var r := v.GetDoc(path, c.listing, c.now);
      reply := if r.Ok? then Text(r.value) else Failed(r.error);
    case Remove(path) =>
      var e := v.RemoveDoc(path, c.listing, c.weather);
      reply := ReplyOf(e);
    case Move(from, to) =>
      var e := v.MoveDoc(from, to, c.listing, c.weather, c.now);
      reply := ReplyOf(e);
  }

  // ---- Lost replies ----

  /** Adding a new document again after its reply was lost leaves the server with two at its path. */
  method AddAgain(v: Volume, path: Path, content: string, now: int) returns (ghost c: DocId, ghost d: DocId)
    requires v.Valid() && WriteErrorFor(v.index.files.Keys, path).None? && path !in v.index.files
    modifies v.server, v.index, v.cache
    ensures c != d && c in v.server.docs && d in v.server.docs && !v.Valid()
    ensures v.server.docs[c] == Stored(path, content) && v.server.docs[d] == Stored(path, content)
  {
    var e;
    e, c := v.AddSteps(path, content, Lost, now);
    e, d := v.AddSteps(path, content, Fair, now);
  }

  /** Removing a document again after its reply was lost makes up for it. */
  method RemoveAgain(v: Volume, path: Path)
    requires v.Valid() && path in v.index.files
    modifies v.server, v.index, v.cache
    ensures v.Valid() && v.View() == old(v.View()) - {path}
  {
    ghost var files, docs := v.index.files, v.server.docs;
    var e := v.RemoveSteps(path, Lost);
    e := v.RemoveSteps(path, Fair);
    RemovedText(files, docs, path);
    assert v.server.docs == docs - {files[path]};
  }

  // ---- Texts under changes ----

  lemma UpdatedText(files: map<Path, DocId>, docs: map<DocId, Stored>, path: Path, content: string)
    requires Listed(files, docs) && path in files
    ensures
      var d := files[path];
      var after := docs[d := docs[d].(content := content)];
      Listed(files[path := d], after) && Texts(files[path := d], after) == Texts(files, docs)[path := content]
  {
    assert files[path := files[path]] == files;
  }

  lemma AddedText(files: map<Path, DocId>, docs: map<DocId, Stored>, path: Path, d: DocId, content: string)
    requires Listed(files, docs) && path !in files && d !in docs
    ensures
      var after := docs[d := Stored(path, content)];
      Listed(files[path := d], after) && Texts(files[path := d], after) == Texts(files, docs)[path := content]
  {
  }

  lemma RemovedText(files: map<Path, DocId>, docs: map<DocId, Stored>, path: Path)
    requires Listed(files, docs) && path in files
    ensures
      var after := docs - {files[path]};
      Listed(files - {path}, after) && Texts(files - {path}, after) == Texts(files, docs) - {path}
  {
  }

  lemma MovedText(files: map<Path, DocId>, docs: map<DocId, Stored>, from: Path, to: Path)
    requires Listed(files, docs) && from in files && to !in files
    ensures
      var d := files[from];
      var after, moved := docs[d := docs[d].(path := to)], (files - {from})[to := d];
      Listed(moved, after) && Texts(moved, after) == (Texts(files, docs) - {from})[to := Texts(files, docs)[from]]
  {
  }

  /** The server's documents after an upload. */
  function Uploaded(files: map<Path, DocId>, docs: map<DocId, Stored>, path: Path, content: string, d: DocId)
    : map<DocId, Stored>
    requires path in files ==> d in docs
  {
    docs[d := if path in files then docs[d].(content := content) else Stored(path, content)]
  }

  /** What the steps of an add do to index, documents and cache; `d` is the document written. */
  ghost predicate AddEffect(files: map<Path, DocId>, docs: map<DocId, Stored>, entries: map<Path, Entry>,
                            files': map<Path, DocId>, docs': map<DocId, Stored>, entries': map<Path, Entry>,
                            path: Path, content: string, call: Weather, d: DocId, e: Option<VolumeError>) {
    var refused := WriteErrorFor(files.Keys, path);
    if refused.Some? || call == Busy || call == Broken || (path in files && files[path] !in docs) then
      && e == Some(if refused.Some? then NotWritable(refused.value) else Io)
      && docs' == docs && files' == files && entries' == entries
    else
      && (if path in files then d == files[path] else d !in docs) && docs' == Uploaded(files, docs, path, content, d)
      && if call == Lost then e == Some(Io) && files' == files && entries' == entries
         else e == None && files' == files[path := d] && CachedOnly(entries, entries', path, content)
  }

  /** What they mean for a volume that stands for the server. */
  lemma AddMeans(files: map<Path, DocId>, docs: map<DocId, Stored>, entries: map<Path, Entry>,
                 files': map<Path, DocId>, docs': map<DocId, Stored>, entries': map<Path, Entry>,
                 path: Path, content: string, call: Weather, d: DocId, e: Option<VolumeError>)
    requires Consistent(files, docs, entries)
    requires AddEffect(files, docs, entries, files', docs', entries', path, content, call, d, e)
    ensures Settled(Texts(files, docs), Add(path, content), true, call) ==>
              && Consistent(files', docs', entries')
              && (Texts(files', docs'), e) == Apply(Texts(files, docs), Add(path, content), true, call)
    ensures !Settled(Texts(files, docs), Add(path, content), true, call) ==>
              && e == Some(Io) && files' == files && entries' == entries
              && (Consistent(files', docs', entries') <==>
                    path in files && (path in entries ==> entries[path].content == content))
  {
    assert Texts(files, docs).Keys == files.Keys;
    if WriteErrorFor(files.Keys, path).None? {
      if call == Lost {
        AddLost(files, docs, entries, path, content, d);
      } else if call == Fair {
        AddConsistent(files, docs, entries, path, content, d, entries');
      }
    }
  }

  /** What an upload leaves once it is indexed and cached. */
  lemma AddConsistent(files: map<Path, DocId>, docs: map<DocId, Stored>, entries: map<Path, Entry>, path: Path,
                      content: string, d: DocId, after: map<Path, Entry>)
    requires Consistent(files, docs, entries) && WriteErrorFor(files.Keys, path).None?
    requires (if path in files then d == files[path] else d !in docs) && CachedOnly(entries, after, path, content)
    ensures Consistent(files[path := d], Uploaded(files, docs, path, content, d), after)
    ensures Texts(files[path := d], Uploaded(files, docs, path, content, d)) == Texts(files, docs)[path := content]
  {
    if path in files {
      UpdatedText(files, docs, path, content);
    } else {
      AddedText(files, docs, path, d, content);
    }
    WritableKeepsTidy(files.Keys, path);
    assert files[path := d].Keys == files.Keys + {path};
    StaysFresh(entries, after, path, content, Texts(files, docs));
  }

  /** What it leaves if it is not: a new document nothing lists, or a text the cache may not have. */
  lemma AddLost(files: map<Path, DocId>, docs: map<DocId, Stored>, entries: map<Path, Entry>, path: Path,
                content: string, d: DocId)
    requires Consistent(files, docs, entries) && (if path in files then d == files[path] else d !in docs)
    ensures Consistent(files, Uploaded(files, docs, path, content, d), entries)
       <==> path in files && (path in entries ==> entries[path].content == content)
  {
    var after := Uploaded(files, docs, path, content, d);
    if path in files {
      UpdatedText(files, docs, path, content);
      assert files[path := d] == files;
      assert Texts(files, after) == Texts(files, docs)[path := content];
      if path in entries && entries[path].content != content {
        assert !Fresh(entries, Texts(files, after));
      }
    } else {
      assert after[d].path == path;
    }
  }
}
