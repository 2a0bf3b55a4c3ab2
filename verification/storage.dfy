/** The flat-file store (`JSONStorage`): one `<id>.json` file per post in
    the posts directory, plus an `index.json` that summarises every post
    without its content. The directory is modelled as a map from file
    name to file contents; reading and writing are functions of it. */
module Storage {
  import opened Wrappers
  import opened Text
  import opened Timestamps
  import opened Models
  import opened Lists

  /** The contents of a file in the posts directory: decoded JSON, or text
      that `json.load` rejects. */
  datatype PostFile = Parsed(json: Json) | Unreadable

  /** An index entry: the post without its content (`_update_index`). */
  datatype IndexEntry = IndexEntry(
    title: String,
    author: String,
    tags: seq<String>,
    createdAt: DateTime,
    updatedAt: Option<DateTime>)

  type Index = map<String, IndexEntry>

  /** The data directory: the posts directory by file name, and the decoded
      index file, absent when the file is missing or cannot be read. */
  datatype Store = Store(files: map<String, PostFile>, index: Option<Index>)

  /** The file name of a post: `f"{post_id}.json"`. */
  function JsonName(id: String): String {
    id + ".json"
  }

  /** `filename.endswith('.json')`. */
  predicate IsJsonName(f: String) {
    |f| >= 5 && f[|f| - 5..] == ".json"
  }

  /** `filename[:-5]`. */
  function StripJson(f: String): String
    requires IsJsonName(f)
  {
    f[..|f| - 5]
  }

  /** File names and identifiers correspond one to one. */
  lemma JsonNameRoundTrip(id: String)
    ensures IsJsonName(JsonName(id)) && StripJson(JsonName(id)) == id
  {
    assert JsonName(id)[|JsonName(id)| - 5..] == ".json";
    assert JsonName(id)[..|id|] == id;
  }

  lemma StripJsonRoundTrip(f: String)
    requires IsJsonName(f)
    ensures JsonName(StripJson(f)) == f
  {
    assert f == f[..|f| - 5] + f[|f| - 5..];
  }

  lemma JsonNameInjective(a: String, b: String)
    requires JsonName(a) == JsonName(b)
    ensures a == b
  {
    JsonNameRoundTrip(a);
    JsonNameRoundTrip(b);
  }

  /** The index entry for a post. */
  function Project(p: Post): (e: IndexEntry)
    ensures e.title == p.title && e.author == p.author && e.tags == p.tags
    ensures e.createdAt == p.createdAt && e.updatedAt == p.updatedAt
  {
    IndexEntry(p.title, p.author, p.tags, p.createdAt, p.updatedAt)
  }

  /** `post_exists`: the post's file is present. */
  predicate PostExists(s: Store, id: String) {
    JsonName(id) in s.files
  }

  /** `json.load` then `BlogPost.from_dict`; any failure is reported as no
      post. */
  function Decode(f: PostFile): Option<Post> {
    match f
    case Parsed(JObject(d)) =>
      (match FromDict(d)
       case Ok(p) => Some(p)
       case Err(_) => None)
    case _ => None
  }

  /** `load_post`: `None` for a missing file or one that does not decode. */
  function LoadPost(s: Store, id: String): (r: Option<Post>)
    ensures !PostExists(s, id) ==> r == None
    ensures PostExists(s, id) ==>
      match s.files[JsonName(id)]
      case Parsed(JObject(d)) => (r.Some? <==> FromDict(d).Ok?) && (r.Some? ==> FromDict(d) == Ok(r.value))
      case _ => r == None
  {
    if JsonName(id) !in s.files then None else Decode(s.files[JsonName(id)])
  }

  /** `_load_index` / `get_index`: the stored index, or an empty one when the
      file is missing or unreadable. */
  function GetIndex(s: Store): (r: Index)
    ensures s.index.None? ==> r == map[]
    ensures s.index.Some? ==> r == s.index.value
  {
    match s.index
    case None => map[]
    case Some(m) => m
  }

  /** `_update_index`: reads the index, sets the post's entry, writes it. */
  function UpdateIndex(s: Store, id: String, p: Post): (r: Store)
    ensures r.files == s.files
    ensures GetIndex(r) == GetIndex(s)[id := Project(p)]
  {
    s.(index := Some(GetIndex(s)[id := Project(p)]))
  }

  /** `_remove_from_index`: rewrites the index without the post's entry,
      and leaves the file alone when there is no such entry. */
  function RemoveFromIndex(s: Store, id: String): (r: Store)
    ensures r.files == s.files
    ensures GetIndex(r) == GetIndex(s) - {id}
    ensures id !in GetIndex(s) ==> r == s
  {
    var idx := GetIndex(s);
    if id in idx then s.(index := Some(idx - {id})) else s
  }

  /** `save_post`: writes `to_dict(post)` to the post's file, then updates
      the index. I/O failures are not modelled, so it reports success. */
  function SavePost(s: Store, id: String, p: Post): (r: (Store, bool))
    ensures r.1
    ensures r.0.files == s.files[JsonName(id) := Parsed(JObject(ToDict(p)))]
    ensures GetIndex(r.0) == GetIndex(s)[id := Project(p)]
  {
    var written := s.(files := s.files[JsonName(id) := Parsed(JObject(ToDict(p)))]);
    (UpdateIndex(written, id, p), true)
  }

  /** `delete_post`: removes the post's file if present, then its index
      entry; it reports success even when there was nothing to delete. */
  function DeletePost(s: Store, id: String): (r: (Store, bool))
    ensures r.1
    ensures r.0.files == s.files - {JsonName(id)}
    ensures GetIndex(r.0) == GetIndex(s) - {id}
  {
    var removed := s.(files := s.files - {JsonName(id)});
    (RemoveFromIndex(removed, id), true)
  }

  /** After a save the post reads back as saved, and exists. */
  lemma SaveThenLoad(s: Store, id: String, p: Post)
    ensures var t := SavePost(s, id, p).0; PostExists(t, id) && LoadPost(t, id) == Some(p)
  {
    DictRoundTrip(p);
  }

  /** A save touches no other post and no other index entry. */
  lemma SaveFrame(s: Store, id: String, p: Post, other: String)
    requires other != id
    ensures var t := SavePost(s, id, p).0;
      && PostExists(t, other) == PostExists(s, other)
      && LoadPost(t, other) == LoadPost(s, other)
      && (other in GetIndex(t) <==> other in GetIndex(s))
      && (other in GetIndex(s) ==> GetIndex(t)[other] == GetIndex(s)[other])
  {
    if JsonName(other) == JsonName(id) {
      JsonNameInjective(other, id);
    }
  }

  /** `post_exists` sees exactly the identifiers saved and not deleted
      since: a save adds its own identifier and a delete removes its own,
      and neither changes the answer for any other identifier. */
  lemma PostExistsTracksWrites(s: Store, id: String, p: Post, x: String)
    ensures PostExists(SavePost(s, id, p).0, x) <==> x == id || PostExists(s, x)
    ensures PostExists(DeletePost(s, id).0, x) <==> x != id && PostExists(s, x)
  {
    if x != id && JsonName(x) == JsonName(id) {
      JsonNameInjective(x, id);
    }
  }

  /** After a delete the post is gone from the files and from the index. */
  lemma DeleteRemoves(s: Store, id: String)
    ensures var t := DeletePost(s, id).0;
      !PostExists(t, id) && LoadPost(t, id) == None && id !in GetIndex(t)
  {
  }

  /** Deleting an identifier that is neither stored nor indexed changes
      nothing. */
  lemma DeleteAbsent(s: Store, id: String)
    requires !PostExists(s, id) && id !in GetIndex(s)
    ensures DeletePost(s, id).0 == s
  {
    assert s.files - {JsonName(id)} == s.files;
  }

  /** A delete touches no other post and no other index entry. */
  lemma DeleteFrame(s: Store, id: String, other: String)
    requires other != id
    ensures var t := DeletePost(s, id).0;
      && PostExists(t, other) == PostExists(s, other)
      && LoadPost(t, other) == LoadPost(s, other)
      && (other in GetIndex(t) <==> other in GetIndex(s))
      && (other in GetIndex(s) ==> GetIndex(t)[other] == GetIndex(s)[other])
  {
    if JsonName(other) == JsonName(id) {
      JsonNameInjective(other, id);
    }
  }

  /** The index lists exactly the posts that have a file. */
  ghost predicate Synced(s: Store) {
    forall id :: id in GetIndex(s) <==> PostExists(s, id)
  }

  /** Every index entry summarises the post stored under its identifier. */
  ghost predicate Coherent(s: Store) {
    forall id :: id in GetIndex(s) ==> LoadPost(s, id).Some? && GetIndex(s)[id] == Project(LoadPost(s, id).value)
  }

  lemma SaveKeepsSynced(s: Store, id: String, p: Post)
    requires Synced(s)
    ensures Synced(SavePost(s, id, p).0)
  {
    var t := SavePost(s, id, p).0;
    forall other
      ensures other in GetIndex(t) <==> PostExists(t, other)
    {
      if other != id {
        SaveFrame(s, id, p, other);
      }
    }
  }

  lemma DeleteKeepsSynced(s: Store, id: String)
    requires Synced(s)
    ensures Synced(DeletePost(s, id).0)
  {
    var t := DeletePost(s, id).0;
    forall other
      ensures other in GetIndex(t) <==> PostExists(t, other)
    {
      if other != id {
        DeleteFrame(s, id, other);
      }
    }
  }

  lemma SaveKeepsCoherent(s: Store, id: String, p: Post)
    requires Coherent(s)
    ensures Coherent(SavePost(s, id, p).0)
  {
    var t := SavePost(s, id, p).0;
    forall other | other in GetIndex(t)
      ensures LoadPost(t, other).Some? && GetIndex(t)[other] == Project(LoadPost(t, other).value)
    {
      if other == id {
        SaveThenLoad(s, id, p);
      } else {
        SaveFrame(s, id, p, other);
      }
    }
  }

  lemma DeleteKeepsCoherent(s: Store, id: String)
    requires Coherent(s)
    ensures Coherent(DeletePost(s, id).0)
  {
    var t := DeletePost(s, id).0;
    forall other | other in GetIndex(t)
      ensures LoadPost(t, other).Some? && GetIndex(t)[other] == Project(LoadPost(t, other).value)
    {
      DeleteFrame(s, id, other);
    }
  }

  /** `load_all_posts`, given the directory listing that `os.listdir`
      returns (its order is the listing's): every `.json` file whose post
      loads, paired with its identifier. */
  function LoadAllPosts(s: Store, listing: seq<String>): (r: seq<(String, Post)>)
    ensures forall e :: e in r ==> LoadPost(s, e.0) == Some(e.1)
    ensures forall e :: e in r ==> JsonName(e.0) in listing
    decreases |listing|
  {
    if listing == [] then []
    else
      var f := listing[0];
      var rest := LoadAllPosts(s, listing[1..]);
      if IsJsonName(f) && LoadPost(s, StripJson(f)).Some? then
        StripJsonRoundTrip(f);
        [(StripJson(f), LoadPost(s, StripJson(f)).value)] + rest
      else rest
  }

  /** A listing of the posts directory: each file name exactly once. */
  ghost predicate Listing(s: Store, listing: seq<String>) {
    && (forall f :: f in listing <==> f in s.files)
    && NoDuplicates(listing)
  }

  lemma {:induction false} LoadAllPostsComplete(s: Store, listing: seq<String>, id: String)
    requires LoadPost(s, id).Some? && JsonName(id) in listing
    ensures (id, LoadPost(s, id).value) in LoadAllPosts(s, listing)
    decreases |listing|
  {
    if listing[0] == JsonName(id) {
      JsonNameRoundTrip(id);
    } else {
      LoadAllPostsComplete(s, listing[1..], id);
    }
  }

  /** No identifier appears twice. */
  predicate DistinctIds(r: seq<(String, Post)>) {
    forall i, j :: 0 <= i < j < |r| ==> r[i].0 != r[j].0
  }

  /** A file name missing from the rest of the listing names none of the
      posts loaded from it. */
  lemma FreshHead(f: String, tail: seq<String>, rest: seq<(String, Post)>, e: (String, Post))
    requires IsJsonName(f) && f !in tail
    requires forall e :: e in rest ==> JsonName(e.0) in tail
    requires e in rest
    ensures e.0 != StripJson(f)
  {
    StripJsonRoundTrip(f);
  }

  lemma ConsDistinct(x: (String, Post), rest: seq<(String, Post)>)
    requires DistinctIds(rest)
    requires forall e :: e in rest ==> e.0 != x.0
    ensures DistinctIds([x] + rest)
  {
    var r := [x] + rest;
    forall i, j | 0 <= i < j < |r|
      ensures r[i].0 != r[j].0
    {
      assert r[j] == rest[j - 1];
      if i > 0 {
        assert r[i] == rest[i - 1];
      }
    }
  }

  lemma {:induction false} LoadAllPostsDistinct(s: Store, listing: seq<String>)
    requires NoDuplicates(listing)
    ensures DistinctIds(LoadAllPosts(s, listing))
    decreases |listing|
  {
    if listing != [] {
      var f := listing[0];
      var tail := listing[1..];
      assert NoDuplicates(tail);
      assert f !in tail;
      LoadAllPostsDistinct(s, tail);
      var rest := LoadAllPosts(s, tail);
      if IsJsonName(f) && LoadPost(s, StripJson(f)).Some? {
        var x := (StripJson(f), LoadPost(s, StripJson(f)).value);
        forall e | e in rest
          ensures e.0 != x.0
        {
          FreshHead(f, tail, rest, e);
        }
        ConsDistinct(x, rest);
      }
    }
  }

  /** Over a full listing, `load_all_posts` yields exactly the posts that
      load, each once under its own identifier. */
  lemma LoadAllPostsExact(s: Store, listing: seq<String>)
    requires Listing(s, listing)
    ensures var r := LoadAllPosts(s, listing);
      && (forall id, p :: (id, p) in r <==> LoadPost(s, id) == Some(p))
      && DistinctIds(r)
  {
    forall id, p | LoadPost(s, id) == Some(p)
      ensures (id, p) in LoadAllPosts(s, listing)
    {
      LoadAllPostsComplete(s, listing, id);
    }
    LoadAllPostsDistinct(s, listing);
  }
}
