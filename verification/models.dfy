/** The post record (`BlogPost`) and its conversion to and from the
    dictionary that is stored as JSON. */
module Models {
  import opened Wrappers
  import opened Text
  import opened Timestamps

  /** A decoded JSON value. */
  datatype Json =
    | JNull
    | JBool(b: bool)
    | JInt(i: int)
    | JString(s: String)
    | JArray(items: seq<Json>)
    | JObject(fields: map<String, Json>)

  type Dict = map<String, Json>

  /** Python truthiness of a decoded value (`if data.get(...)`). */
  predicate Truthy(v: Json) {
    match v
    case JNull => false
    case JBool(b) => b
    case JInt(i) => i != 0
    case JString(s) => s != []
    case JArray(xs) => xs != []
    case JObject(m) => m != map[]
  }

  datatype Post = Post(
    title: String,
    content: String,
    author: String,
    tags: seq<String>,
    createdAt: DateTime,
    updatedAt: Option<DateTime>)

  const DefaultAuthor: String := "Anonymous"

  const PostKeys: set<String> := {"title", "content", "author", "tags", "created_at", "updated_at"}

  /** `BlogPost(title, content)` with every other field left at its default;
      `now` is the clock reading that `datetime.now` supplies. */
  function NewPost(title: String, content: String, now: DateTime): (p: Post)
    ensures p.title == title && p.content == content
    ensures p.author == DefaultAuthor && p.tags == [] && p.updatedAt == None
    ensures p.createdAt == now
  {
    Post(title, content, DefaultAuthor, [], now, None)
  }

  function StringList(tags: seq<String>): (r: seq<Json>)
    ensures |r| == |tags|
    ensures forall i :: 0 <= i < |tags| ==> r[i] == JString(tags[i])
  {
    if tags == [] then [] else [JString(tags[0])] + StringList(tags[1..])
  }

  function OptionalTime(t: Option<DateTime>): Json {
    match t
    case Some(u) => JString(IsoFormat(u))
    case None => JNull
  }

  /** `to_dict`: the six keys, timestamps as ISO strings, a missing update time as null. */
  function ToDict(p: Post): (d: Dict)
    ensures d.Keys == PostKeys
    ensures d["updated_at"] == JNull <==> p.updatedAt.None?
    ensures d["title"] == JString(p.title) && d["content"] == JString(p.content)
    ensures d["author"] == JString(p.author)
  {
    map[
      "title" := JString(p.title),
      "content" := JString(p.content),
      "author" := JString(p.author),
      "tags" := JArray(StringList(p.tags)),
      "created_at" := JString(IsoFormat(p.createdAt)),
      "updated_at" := OptionalTime(p.updatedAt)]
  }

  /** Why a stored dictionary does not decode (Python's KeyError, TypeError
      and ValueError). */
  datatype DecodeError =
    | MissingKey(key: String)
    | WrongType(key: String)
    | BadTimestamp(text: String)

  function ParseTime(key: String, v: Json): Result<DateTime, DecodeError> {
    match v
    case JString(s) =>
      (match FromIsoFormat(s)
       case Some(t) => Ok(t)
       case None => Err(BadTimestamp(s)))
    case _ => Err(WrongType(key))
  }

  function Required(d: Dict, key: String): Result<String, DecodeError> {
    if key !in d then Err(MissingKey(key))
    else match d[key]
      case JString(s) => Ok(s)
      case _ => Err(WrongType(key))
  }

  function Strings(items: seq<Json>): Option<seq<String>> {
    if items == [] then Some([])
    else match items[0]
      case JString(s) =>
        (match Strings(items[1..])
         case Some(rest) => Some([s] + rest)
         case None => None)
      case _ => None
  }

  /** A list decodes to the strings it was written from. */
  lemma {:induction false} StringsInverse(items: seq<Json>, tags: seq<String>)
    requires Strings(items) == Some(tags)
    ensures items == StringList(tags)
  {
    if items != [] {
      var rest := Strings(items[1..]).value;
      StringsInverse(items[1..], rest);
      assert tags == [items[0].s] + rest;
      assert tags[1..] == rest;
    }
  }

  function TagsField(d: Dict): (r: Result<seq<String>, DecodeError>)
    ensures r.Ok? && "tags" in d ==> d["tags"] == JArray(StringList(r.value))
  {
    if "tags" !in d then Ok([])
    else match d["tags"]
      case JArray(items) =>
        (match Strings(items)
         case Some(tags) => StringsInverse(items, tags); Ok(tags)
         case None => Err(WrongType("tags")))
      case _ => Err(WrongType("tags"))
  }

  function AuthorField(d: Dict): (r: Result<String, DecodeError>)
    ensures r.Ok? && "author" in d ==> d["author"] == JString(r.value)
  {
    if "author" !in d then Ok(DefaultAuthor)
    else match d["author"]
      case JString(s) => Ok(s)
      case _ => Err(WrongType("author"))
  }

  /** `from_dict`, reading the keys in the order Python evaluates them:
      created_at, updated_at, title, content, author, tags. */
  function FromDict(d: Dict): (r: Result<Post, DecodeError>)
    ensures "created_at" !in d ==> r == Err(MissingKey("created_at"))
    ensures r.Ok? ==> "title" in d && "content" in d
    ensures r.Ok? && "author" !in d ==> r.value.author == DefaultAuthor
    ensures r.Ok? && "tags" !in d ==> r.value.tags == []
    ensures r.Ok? && ("updated_at" !in d || !Truthy(d["updated_at"])) ==> r.value.updatedAt == None
    ensures r.Ok? ==> d["title"] == JString(r.value.title) && d["content"] == JString(r.value.content)
    ensures r.Ok? ==> d["created_at"].JString? && FromIsoFormat(d["created_at"].s) == Some(r.value.createdAt)
    ensures r.Ok? && "updated_at" in d && Truthy(d["updated_at"]) ==>
      d["updated_at"].JString? && FromIsoFormat(d["updated_at"].s) == r.value.updatedAt
    ensures r.Ok? && "author" in d ==> d["author"] == JString(r.value.author)
    ensures r.Ok? && "tags" in d ==> d["tags"] == JArray(StringList(r.value.tags))
  {
    if "created_at" !in d then Err(MissingKey("created_at"))
    else
      var created :- ParseTime("created_at", d["created_at"]);
      var updated :- if "updated_at" in d && Truthy(d["updated_at"])
                     then (match ParseTime("updated_at", d["updated_at"])
                           case Ok(t) => Ok(Some(t))
                           case Err(e) => Err(e))
                     else Ok(None);
      var title :- Required(d, "title");
      var content :- Required(d, "content");
      var author :- AuthorField(d);
      var tags :- TagsField(d);
      Ok(Post(title, content, author, tags, created, updated))
  }

  lemma {:induction false} StringsOfStringList(tags: seq<String>)
    ensures Strings(StringList(tags)) == Some(tags)
  {
    if tags != [] {
      assert StringList(tags)[1..] == StringList(tags[1..]);
      StringsOfStringList(tags[1..]);
      assert [tags[0]] + tags[1..] == tags;
    }
  }

  /** The shape of a dictionary `from_dict` accepts: ISO time stamps, string
      title and content, and, when present, a string author and a list of
      string tags. */
  ghost predicate WellFormedDict(d: Dict) {
    && "created_at" in d && d["created_at"].JString? && FromIsoFormat(d["created_at"].s).Some?
    && ("updated_at" !in d || !Truthy(d["updated_at"])
        || (d["updated_at"].JString? && FromIsoFormat(d["updated_at"].s).Some?))
    && "title" in d && d["title"].JString?
    && "content" in d && d["content"].JString?
    && ("author" !in d || d["author"].JString?)
    && ("tags" !in d || (d["tags"].JArray? && Strings(d["tags"].items).Some?))
  }

  /** Every well-formed dictionary decodes. */
  lemma FromDictSucceeds(d: Dict)
    requires WellFormedDict(d)
    ensures FromDict(d).Ok?
  {
  }

  /** A dictionary with only title, content and creation time decodes to
      the post with the default author, no tags and no update time. */
  lemma FromDictDefaults(title: String, content: String, t: DateTime)
    ensures FromDict(map["title" := JString(title), "content" := JString(content),
                         "created_at" := JString(IsoFormat(t))])
         == Ok(Post(title, content, DefaultAuthor, [], t, None))
  {
    var d := map["title" := JString(title), "content" := JString(content),
                  "created_at" := JString(IsoFormat(t))];
    IsoRoundTrip(t);
    assert d["created_at"] == JString(IsoFormat(t));
    assert "updated_at" !in d && "author" !in d && "tags" !in d;
    FromDictSucceeds(d);
  }

  /** `from_dict(to_dict(p))` rebuilds `p` field for field. */
  lemma DictRoundTrip(p: Post)
    ensures FromDict(ToDict(p)) == Ok(p)
  {
    var d := ToDict(p);
    ParseTimeRoundTrip("created_at", p.createdAt);
    UpdatedRoundTrip(p.updatedAt);
    assert Required(d, "title") == Ok(p.title);
    assert Required(d, "content") == Ok(p.content);
    assert AuthorField(d) == Ok(p.author);
    StringsOfStringList(p.tags);
    assert TagsField(d) == Ok(p.tags);
  }

  lemma ParseTimeRoundTrip(key: String, t: DateTime)
    ensures ParseTime(key, JString(IsoFormat(t))) == Ok(t)
  {
    IsoRoundTrip(t);
  }

  lemma UpdatedRoundTrip(u: Option<DateTime>)
    ensures var v := OptionalTime(u);
      (Truthy(v) <==> u.Some?) && (u.Some? ==> ParseTime("updated_at", v) == Ok(u.value))
  {
    if u.Some? {
      ParseTimeRoundTrip("updated_at", u.value);
    }
  }
}
