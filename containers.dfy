/**
  The Postman data model of lib/postman.py: `Request`, `Folder` and `Collection`, as
  classes whose fields the operations update in place, and their `serialize` methods.

  A serialised object is modelled as a record with one component per key of the ordered
  dict the source builds (an optional key is an `Option`); the `...Value` functions below
  lay a record out as that ordered dict, keys in the source's order.
*/
module Containers {
  import opened Wrappers
  import opened Values
  import Dicts
  import Ordering

  /** A request's back-reference to the container that holds it. */
  datatype Parent = NoParent | CollectionParent(c: Collection) | FolderParent(f: Folder)

  /** How a request body is written out: no `dataMode`, `dataMode = "urlencoded"` with
      its `data` entries, or `dataMode = "raw"` with its `rawModeData` text. */
  datatype Body = NoBody | UrlEncoded(entries: seq<Value>) | Raw(rawModeData: string)

  /** What `Request.serialize` returns. */
  datatype RequestObject = RequestObject(
    id: string, name: string, url: string, httpMethod: string, body: Body, headers: string,
    description: Option<string>, collectionId: Option<string>, folder: Option<string>)

  /** What `Folder.serialize` returns. */
  datatype FolderObject = FolderObject(id: string, name: string, order: seq<string>)

  /** What `Collection.serialize` returns. */
  datatype CollectionObject = CollectionObject(
    id: string, name: string, description: Option<string>, order: seq<string>,
    folders: seq<FolderObject>, requests: seq<RequestObject>)

  /** The line `name: value` of one header, ended by a newline. */
  function HeaderLine(header: (string, string)): string
  {
    header.0 + ": " + header.1 + "\n"
  }

  /** The headers as one text: their lines one after the other. */
  function HeaderBlock(headers: seq<(string, string)>): string
  {
    if headers == [] then "" else HeaderLine(headers[0]) + HeaderBlock(headers[1..])
  }

  /** The block of a list of headers is the blocks of its parts, one after the other. */
  lemma {:induction false} HeaderBlockAppend(a: seq<(string, string)>, b: seq<(string, string)>)
    ensures HeaderBlock(a + b) == HeaderBlock(a) + HeaderBlock(b)
  {
    if a == [] {
      assert a + b == b;
    } else {
      calc {
        HeaderBlock(a + b);
      == { assert (a + b)[0] == a[0] && (a + b)[1..] == a[1..] + b; }
        HeaderLine(a[0]) + HeaderBlock(a[1..] + b);
      == { HeaderBlockAppend(a[1..], b); }
        HeaderLine(a[0]) + (HeaderBlock(a[1..]) + HeaderBlock(b));
      }
    }
  }

  /** One entry `{key, value, enabled: True, type: "text"}` of an urlencoded body. */
  function FormEntry(item: (string, Value)): Value
  {
    Dict([("key", Str(item.0)), ("value", item.1), ("enabled", Bool(true)), ("type", Str("text"))])
  }

  function RequestId(r: Request): string { r.id }

  function FolderId(f: Folder): string { f.id }

  /** The ids of the requests, in list order. */
  function Ids(rs: seq<Request>): (ids: seq<string>)
    ensures |ids| == |rs|
    ensures forall i :: 0 <= i < |rs| ==> ids[i] == rs[i].id
  {
    seq(|rs|, i requires 0 <= i < |rs| => rs[i].id)
  }

  class Request {
    const id: string
    const name: string
    const url: string
    const httpMethod: string
    const headers: seq<(string, string)>
    const data: Value
    const isJson: bool
    const description: Option<string>
    var parent: Parent

    constructor (id: string, name: string, url: string, httpMethod: string,
                 headers: seq<(string, string)>, data: Value, isJson: bool,
                 description: Option<string>, parent: Parent)
      ensures this.id == id && this.name == name && this.url == url && this.httpMethod == httpMethod
      ensures this.headers == headers && this.data == data && this.isJson == isJson
      ensures this.description == description && this.parent == parent
    {
      this.id := id;
      this.name := name;
      this.url := url;
      this.httpMethod := httpMethod;
      this.headers := headers;
      this.data := data;
      this.isJson := isJson;
      this.description := description;
      this.parent := parent;
    }

    method SetParent(p: Parent)
      modifies this
      ensures parent == p
    {
      parent := p;
    }

    /** What serialising reads beyond the request itself: a parent folder's collection. */
    ghost function ParentFrame(): set<object>
      reads this
    {
      if parent.FolderParent? then {parent.f} else {}
    }

    /** The body is one `json.dumps` can write: it is not a JSON body, or its value is
        dumpable. A JSON request recorded with an empty body holds `b""` and is not. */
    predicate Renderable()
    {
      isJson && data != Null ==> Dumpable(data)
    }

    /** The body fields, chosen in priority order: a dict that is not JSON is urlencoded,
        any other non-JSON body is raw `str(data)`, a JSON body is raw JSON text, and a
        `None` body has no `dataMode` at all. Absent when `json.dumps` raises on a JSON
        body it cannot write. */
    function EncodeBody(codec: Codec): (b: Option<Body>)
      ensures b.None? <==> !Renderable()
      ensures b.Some? ==> (b.value.NoBody? <==> data == Null)
      ensures b.Some? ==> (b.value.UrlEncoded? <==> data.Dict? && !isJson)
      ensures b.Some? && b.value.UrlEncoded? ==> |b.value.entries| == |data.fields|
      ensures b.Some? && b.value.UrlEncoded? ==>
        forall i :: 0 <= i < |data.fields| ==> b.value.entries[i] == FormEntry(data.fields[i])
      ensures data != Null && !data.Dict? && !isJson ==> b == Some(Raw(codec.str(data)))
      ensures data != Null && isJson && Dumpable(data) ==> b == Some(Raw(codec.dumps(data)))
    {
      if data != Null && data.Dict? && !isJson then
        Some(UrlEncoded(seq(|data.fields|, i requires 0 <= i < |data.fields| => FormEntry(data.fields[i]))))
      else if data != Null && !isJson then Some(Raw(codec.str(data)))
      else if data != Null && isJson then
        if Dumpable(data) then Some(Raw(codec.dumps(data))) else None
      else Some(NoBody)
    }

    /** `Request.serialize`; absent when `json.dumps` raises on the body, or when the parent
        is a folder without a collection, where the source's `get_collection_id` raises. */
    function Serialize(codec: Codec): (r: Option<RequestObject>)
      reads this, ParentFrame()
      ensures r.None? <==> !Renderable() || (parent.FolderParent? && parent.f.collection == null)
      ensures r.Some? ==> r.value.id == id && r.value.name == name && r.value.url == url
      ensures r.Some? ==> r.value.httpMethod == httpMethod && r.value.description == description
      ensures r.Some? ==> Some(r.value.body) == EncodeBody(codec) && r.value.headers == HeaderBlock(headers)
      ensures r.Some? ==> (r.value.collectionId.Some? <==> !parent.NoParent?)
      ensures r.Some? && parent.CollectionParent? ==> r.value.collectionId == Some(parent.c.id)
      ensures r.Some? && parent.FolderParent? ==> r.value.collectionId == Some(parent.f.collection.id)
      ensures r.Some? ==> (r.value.folder.Some? <==> parent.FolderParent?)
      ensures r.Some? && parent.FolderParent? ==> r.value.folder == Some(parent.f.id)
    {
      var body := EncodeBody(codec);
      var collectionId :=
        match parent
        case NoParent => Some(None)
        case CollectionParent(c) => Some(Some(c.GetCollectionId()))
        case FolderParent(f) =>
          match f.GetCollectionId()
          case None => None
          case Some(cid) => Some(Some(cid));
      if body.None? || collectionId.None? then None
      else
        Some(RequestObject(id, name, url, httpMethod, body.value, HeaderBlock(headers),
                           description, collectionId.value,
                           if parent.FolderParent? then Some(parent.f.id) else None))
    }
  }

  class Folder {
    const id: string
    const name: string
    var requests: seq<Request>
    var collection: Collection?

    constructor (id: string, name: string, collection: Collection?)
      ensures this.id == id && this.name == name
      ensures requests == [] && this.collection == collection
    {
      this.id := id;
      this.name := name;
      this.requests := [];
      this.collection := collection;
    }

    /** `Folder.get_collection_id`: absent before a collection is attached. */
    function GetCollectionId(): (cid: Option<string>)
      reads this
      ensures cid.None? <==> collection == null
      ensures cid.Some? ==> cid.value == collection.id
    {
      if collection == null then None else Some(collection.id)
    }

    /** `Folder.add_request`: append `r` and make this folder its parent. */
    method AddRequest(r: Request)
      modifies this, r
      ensures requests == old(requests) + [r]
      ensures r.parent == FolderParent(this)
      ensures collection == old(collection)
      ensures collection != null && this in collection.folders && old(collection.Valid()) ==>
        multiset(collection.Owned()) == old(multiset(collection.Owned())) + multiset{r}
      ensures collection != null && this in collection.folders && old(collection.Valid())
        && (forall x :: x in old(collection.Owned()) ==> x.id != r.id)
        ==> collection.Valid()
    {
      r.parent := FolderParent(this);
      requests := requests + [r];
      if collection != null && this in collection.folders && old(collection.Valid()) {
        Grew(r);
        if forall x :: x in old(collection.Owned()) ==> x.id != r.id {
          GrewValid(r);
        }
      }
    }

    /** After `r` was appended to this folder of a valid collection, and nothing else the
        collection holds changed, the collection holds `r` once more. */
    twostate lemma Grew(r: Request)
      requires collection != null && collection == old(collection) && unchanged(collection)
      requires this in collection.folders && old(collection.Valid())
      requires requests == old(requests) + [r]
      requires forall f :: f in collection.folders && f != this ==> f.requests == old(f.requests)
      ensures multiset(collection.Owned()) == old(multiset(collection.Owned())) + multiset{r}
    {
      var c := collection;
      var j :| 0 <= j < |c.folders| && c.folders[j] == this;
      ghost var ls := old(FolderLists(c.folders));
      forall i | 0 <= i < |c.folders| ensures FolderLists(c.folders)[i] == ls[j := ls[j] + [r]][i] {
        if i != j {
          assert c.folders[i] != this;
        }
      }
      assert FolderLists(c.folders) == ls[j := ls[j] + [r]];
      ConcatAppendAt(ls, j, r);
    }

    /** ... and it stays valid when the id of `r` is new to it. */
    twostate lemma GrewValid(r: Request)
      requires collection != null && collection == old(collection) && unchanged(collection)
      requires this in collection.folders && old(collection.Valid())
      requires requests == old(requests) + [r] && r.parent == FolderParent(this)
      requires forall f :: f in collection.folders && f != this ==> f.requests == old(f.requests)
      requires forall f :: f in collection.folders ==> f.collection == old(f.collection)
      requires forall x :: x in old(collection.Owned()) ==> x.id != r.id && (x != r ==> x.parent == old(x.parent))
      requires multiset(collection.Owned()) == old(multiset(collection.Owned())) + multiset{r}
      ensures collection.Valid()
    {
      var c := collection;
      ghost var ls := old(FolderLists(c.folders));
      Ordering.UniqueKeysAdd(old(c.Owned()), c.Owned(), r, RequestId);
      forall x | x in c.requests ensures x.parent == CollectionParent(c) {
        assert x in old(c.Owned());
      }
      forall f, x | f in c.folders && x in f.requests ensures x.parent == FolderParent(f) {
        if x != r || f != this {
          var i :| 0 <= i < |c.folders| && c.folders[i] == f;
          assert x in ls[i];
          assert x in old(c.Owned());
        }
      }
    }

    /** `Folder.serialize`: id, name and the ids of its requests in append order. */
    function Serialize(): (o: FolderObject)
      reads this
      ensures o.id == id && o.name == name
      ensures |o.order| == |requests|
      ensures forall i :: 0 <= i < |requests| ==> o.order[i] == requests[i].id
    {
      FolderObject(id, name, Ids(requests))
    }
  }

  /** The request lists of the folders, in folder order. */
  function FolderLists(fs: seq<Folder>): (ls: seq<seq<Request>>)
    reads set f: Folder | f in fs
    ensures |ls| == |fs|
    ensures forall i :: 0 <= i < |fs| ==> ls[i] == fs[i].requests
  {
    seq(|fs|, i reads set f: Folder | f in fs requires 0 <= i < |fs| => fs[i].requests)
  }

  /** The lists one after the other. */
  function Concat(ls: seq<seq<Request>>): (r: seq<Request>)
    ensures forall i, x :: 0 <= i < |ls| && x in ls[i] ==> x in r
    ensures forall x :: x in r ==> exists i :: 0 <= i < |ls| && x in ls[i]
  {
    if ls == [] then [] else Concat(ls[..|ls| - 1]) + ls[|ls| - 1]
  }

  /** Growing one list by `x` adds `x` once to the concatenation. */
  lemma {:induction false} ConcatAppendAt(ls: seq<seq<Request>>, j: nat, x: Request)
    requires j < |ls|
    ensures multiset(Concat(ls[j := ls[j] + [x]])) == multiset(Concat(ls)) + multiset{x}
  {
    var n := |ls| - 1;
    var ls' := ls[j := ls[j] + [x]];
    if j == n {
      assert ls'[..n] == ls[..n];
      assert Concat(ls') == Concat(ls[..n]) + (ls[n] + [x]);
    } else {
      assert ls'[..n] == ls[..n][j := ls[j] + [x]] && ls'[n] == ls[n];
      ConcatAppendAt(ls[..n], j, x);
    }
  }

  /** The objects serialising the requests reads: each request and a parent folder's collection. */
  ghost function RequestsFrame(rs: seq<Request>): set<object>
    reads set x: Request | x in rs
  {
    (set x: Request | x in rs) + (set x: Request | x in rs && x.parent.FolderParent? :: x.parent.f)
  }

  /** `Request.serialize` for each request, failing as soon as one of them fails. */
  function SerializeRequests(rs: seq<Request>, codec: Codec): (r: Option<seq<RequestObject>>)
    reads RequestsFrame(rs)
    ensures r.None? <==> exists i :: 0 <= i < |rs| && rs[i].Serialize(codec).None?
    ensures r.Some? ==> |r.value| == |rs|
    ensures r.Some? ==> forall i :: 0 <= i < |rs| ==> rs[i].Serialize(codec) == Some(r.value[i])
  {
    if rs == [] then Some([])
    else
      match rs[0].Serialize(codec)
      case None => None
      case Some(o) =>
        match SerializeRequests(rs[1..], codec)
        case None => None
        case Some(os) => Some([o] + os)
  }

  /** `Folder.serialize` for each folder. */
  function SerializeFolders(fs: seq<Folder>): (os: seq<FolderObject>)
    reads set f: Folder | f in fs
    ensures |os| == |fs|
    ensures forall i :: 0 <= i < |fs| ==> os[i] == fs[i].Serialize()
  {
    seq(|fs|, i reads set f: Folder | f in fs requires 0 <= i < |fs| => fs[i].Serialize())
  }

  /** The folder objects of `Collection.serialize`: every folder once, ascending by id. */
  lemma SortedFolders(folders: seq<Folder>)
    ensures |SerializeFolders(Ordering.SortBy(folders, FolderId))| == |folders|
    ensures forall i, j :: 0 <= i < j < |folders| ==>
      Ordering.StrLe(SerializeFolders(Ordering.SortBy(folders, FolderId))[i].id,
                     SerializeFolders(Ordering.SortBy(folders, FolderId))[j].id)
    ensures forall f :: f in folders ==> f.Serialize() in SerializeFolders(Ordering.SortBy(folders, FolderId))
    ensures forall o :: o in SerializeFolders(Ordering.SortBy(folders, FolderId)) ==>
      exists f :: f in folders && o == f.Serialize()
  {
    var sorted := Ordering.SortBy(folders, FolderId);
    assert |sorted| == |multiset(sorted)| == |multiset(folders)| == |folders|;
    forall f | f in folders ensures f.Serialize() in SerializeFolders(sorted) {
      assert f in multiset(sorted);
      var i :| 0 <= i < |sorted| && sorted[i] == f;
      assert SerializeFolders(sorted)[i] == f.Serialize();
    }
    forall o | o in SerializeFolders(sorted) ensures exists f :: f in folders && o == f.Serialize() {
      var i :| 0 <= i < |sorted| && SerializeFolders(sorted)[i] == o;
      assert sorted[i] in multiset(folders);
    }
    Ordering.SortBySorted(folders, FolderId);
    forall i, j | 0 <= i < j < |sorted| ensures Ordering.StrLe(SerializeFolders(sorted)[i].id, SerializeFolders(sorted)[j].id) {
      assert FolderId(sorted[i]) == SerializeFolders(sorted)[i].id;
      assert FolderId(sorted[j]) == SerializeFolders(sorted)[j].id;
    }
  }

  class Collection {
    const id: string
    const name: string
    const description: Option<string>
    var requests: seq<Request>
    var folders: seq<Folder>

    constructor (id: string, name: string, description: Option<string>)
      ensures this.id == id && this.name == name && this.description == description
      ensures requests == [] && folders == []
    {
      this.id := id;
      this.name := name;
      this.description := description;
      this.requests := [];
      this.folders := [];
    }

    /** `Collection.get_collection_id`. */
    function GetCollectionId(): string
    {
      id
    }

    /** `Collection.add_request`: make this collection the parent of `r` and append it to
        the ungrouped requests. */
    method AddRequest(r: Request)
      modifies this, r
      ensures r.parent == CollectionParent(this)
      ensures requests == old(requests) + [r] && folders == old(folders)
      ensures multiset(Owned()) == old(multiset(Owned())) + multiset{r}
      ensures old(Valid()) && (forall x :: x in old(Owned()) ==> x.id != r.id) ==> Valid()
    {
      r.parent := CollectionParent(this);
      requests := requests + [r];
      Appended(r);
      if old(Valid()) && (forall x :: x in old(Owned()) ==> x.id != r.id) {
        AppendedValid(r);
      }
    }

    /** After `r` was appended to the ungrouped requests and no folder changed, the
        collection holds `r` once more. */
    twostate lemma Appended(r: Request)
      requires requests == old(requests) + [r] && folders == old(folders)
      requires forall f :: f in folders ==> f.requests == old(f.requests)
      ensures multiset(Owned()) == old(multiset(Owned())) + multiset{r}
    {
      assert FolderLists(folders) == old(FolderLists(folders));
      assert Owned() == old(requests) + [r] + old(Concat(FolderLists(folders)));
    }

    /** ... and it stays valid when the id of `r` is new to it. */
    twostate lemma AppendedValid(r: Request)
      requires old(Valid())
      requires requests == old(requests) + [r] && folders == old(folders)
      requires r.parent == CollectionParent(this)
      requires forall f :: f in folders ==> f.requests == old(f.requests) && f.collection == old(f.collection)
      requires forall x :: x in old(Owned()) ==> x.id != r.id && (x != r ==> x.parent == old(x.parent))
      requires multiset(Owned()) == old(multiset(Owned())) + multiset{r}
      ensures Valid()
    {
      Ordering.UniqueKeysAdd(old(Owned()), Owned(), r, RequestId);
      forall x | x in requests ensures x.parent == CollectionParent(this) {
        if x != r {
          assert x in old(Owned());
        }
      }
      forall f, x | f in folders && x in f.requests ensures x.parent == FolderParent(f) {
        var i :| 0 <= i < |folders| && folders[i] == f;
        assert x in old(FolderLists(folders))[i];
        assert x in old(Owned());
      }
    }

    /** `Collection.add_folder`: append `f` and attach it to this collection. */
    method AddFolder(f: Folder)
      modifies this, f
      ensures folders == old(folders) + [f] && requests == old(requests)
      ensures f.collection == this && f.requests == old(f.requests)
      ensures old(f.requests) == [] ==> Owned() == old(Owned())
      ensures old(Valid()) && f !in old(folders) && old(f.requests) == [] ==> Valid()
    {
      folders := folders + [f];
      f.collection := this;
      if old(f.requests) == [] {
        assert FolderLists(folders) == old(FolderLists(folders)) + [[]];
        assert FolderLists(folders)[..|folders| - 1] == old(FolderLists(folders));
      }
    }

    /** Every request the collection holds: the ungrouped ones, then each folder's. */
    function Owned(): seq<Request>
      reads this, set f: Folder | f in folders
    {
      requests + Concat(FolderLists(folders))
    }

    /** The requests of `get_all_requests`, sorted by id. */
    function AllRequests(): seq<Request>
      reads this, set f: Folder | f in folders
    {
      Ordering.SortBy(Owned(), RequestId)
    }

    /** `Collection.get_all_requests`: copy the ungrouped requests, extend the copy with
        each folder's requests, and sort the result by id. */
    method GetAllRequests() returns (rs: seq<Request>)
      ensures rs == AllRequests()
      ensures Ordering.SortedBy(rs, RequestId)
      ensures multiset(rs) == multiset(Owned())
    {
      var all := requests;
      var i := 0;
      while i < |folders|
        invariant 0 <= i <= |folders|
        invariant all == requests + Concat(FolderLists(folders)[..i])
      {
        assert FolderLists(folders)[..i + 1][..i] == FolderLists(folders)[..i];
        all := all + folders[i].requests;
        i := i + 1;
      }
      assert FolderLists(folders)[..i] == FolderLists(folders);
      rs := Ordering.SortBy(all, RequestId);
      Ordering.SortBySorted(all, RequestId);
    }

    /** The objects serialising the collection reads. */
    ghost function SerializeFrame(): set<object>
      reads this, set f: Folder | f in folders, set r: Request | r in AllRequests()
    {
      {this} + (set f: Folder | f in folders) + RequestsFrame(AllRequests())
    }

    /** The collection's own invariant: every request it holds points back to its holder,
        every folder points back to the collection, no folder is held twice, and no two
        held requests share an id. */
    ghost predicate Valid()
      reads this, set f: Folder | f in folders, set r: Request | r in Owned()
    {
      && (forall r :: r in requests ==> r.parent == CollectionParent(this))
      && (forall f :: f in folders ==> f.collection == this)
      && (forall f, r :: f in folders && r in f.requests ==> r.parent == FolderParent(f))
      && (forall i, j :: 0 <= i < j < |folders| ==> folders[i] != folders[j])
      && Ordering.UniqueKeys(Owned(), RequestId)
    }

    /** `Collection.serialize`; absent when one of the requests fails to serialise. */
    function Serialize(codec: Codec): (r: Option<CollectionObject>)
      reads SerializeFrame()
      ensures r.None? <==> exists x :: x in AllRequests() && x.Serialize(codec).None?
      ensures r.Some? ==> r.value.id == id && r.value.name == name && r.value.description == description
      ensures r.Some? ==> r.value.order == Ids(requests) && |r.value.folders| == |folders|
    {
      var sorted := Ordering.SortBy(folders, FolderId);
      assert forall f :: f in sorted ==> f in multiset(folders);
      match SerializeRequests(AllRequests(), codec)
      case None => None
      case Some(objects) =>
        Some(CollectionObject(id, name, description, Ids(requests), SerializeFolders(sorted), objects))
    }

    /** A held request is attached to this collection, directly or through one of its folders. */
    lemma HeldRequestAttached(r: Request)
      requires Valid()
      requires r in Owned()
      ensures r.parent.CollectionParent? ==> r.parent.c == this
      ensures r.parent.FolderParent? ==> r.parent.f.collection == this
      ensures !r.parent.NoParent?
    {
      if r !in requests {
        var ls := FolderLists(folders);
        var i :| 0 <= i < |ls| && r in ls[i];
        assert r in folders[i].requests;
      }
    }

    /** The order `get_all_requests` returns depends only on which requests the collection
        holds: any arrangement of them sorted by id is that order. */
    lemma AllRequestsCanonical(t: seq<Request>)
      requires Valid()
      requires Ordering.SortedBy(t, RequestId) && multiset(t) == multiset(Owned())
      ensures t == AllRequests()
    {
      Ordering.SortBySorted(Owned(), RequestId);
      Ordering.UniqueKeysPermutation(Owned(), t, RequestId);
      Ordering.SortedUnique(t, AllRequests(), RequestId);
    }

    /** Every held request has a body `json.dumps` can write. */
    ghost predicate AllRenderable()
      reads this, set f: Folder | f in folders
    {
      forall r :: r in Owned() ==> r.Renderable()
    }

    /** Serialising a valid collection fails exactly when it holds a request whose JSON body
        `json.dumps` refuses; once such a request is recorded it stays held, so every later
        serialisation fails. */
    lemma SerializeSucceeds(codec: Codec)
      requires Valid()
      ensures Serialize(codec).Some? <==> AllRenderable()
    {
      var all := AllRequests();
      forall i | 0 <= i < |all|
        ensures all[i] in Owned() && (all[i].Serialize(codec).Some? <==> all[i].Renderable())
      {
        assert all[i] in multiset(Owned());
        HeldRequestAttached(all[i]);
      }
      if !AllRenderable() {
        var r :| r in Owned() && !r.Renderable();
        assert r in multiset(all);
        var i :| 0 <= i < |all| && all[i] == r;
        assert SerializeRequests(all, codec).None?;
      }
    }

    /** When serialising succeeds, the serialised `requests` are exactly the objects of the
        held requests. */
    lemma SerializedRequestsHeld(codec: Codec)
      requires Valid() && AllRenderable()
      ensures Serialize(codec).Some?
      ensures forall r :: r in Owned() ==> r.Serialize(codec).Some? && r.Serialize(codec).value in Serialize(codec).value.requests
      ensures forall o :: o in Serialize(codec).value.requests ==> exists r :: r in Owned() && r.Serialize(codec) == Some(o)
    {
      SerializeSucceeds(codec);
      var all := AllRequests();
      var objects := SerializeRequests(all, codec).value;
      forall r | r in Owned() ensures r.Serialize(codec).Some? && r.Serialize(codec).value in objects {
        assert r in multiset(all);
        var i :| 0 <= i < |all| && all[i] == r;
      }
      forall o | o in objects ensures exists r :: r in Owned() && r.Serialize(codec) == Some(o) {
        var i :| 0 <= i < |objects| && objects[i] == o;
        assert all[i] in multiset(Owned());
      }
    }

    /** When serialising succeeds (every held body can be dumped), the `requests` list holds
        one object per held request, sorted ascending by id with no id twice, each carrying
        this collection's id as `collectionId`; `order` lists the ungrouped ids in append
        order; `folders` lists every folder, sorted by id. */
    lemma SerializeValid(codec: Codec)
      requires Valid() && AllRenderable()
      ensures Serialize(codec).Some?
      ensures Serialize(codec).value.id == id && Serialize(codec).value.name == name
      ensures Serialize(codec).value.order == Ids(requests)
      ensures |Serialize(codec).value.requests| == |Owned()|
      ensures forall i :: 0 <= i < |Owned()| ==> Serialize(codec).value.requests[i].collectionId == Some(id)
      ensures forall i, j :: 0 <= i < j < |Owned()| ==>
        Ordering.StrLe(Serialize(codec).value.requests[i].id, Serialize(codec).value.requests[j].id)
        && Serialize(codec).value.requests[i].id != Serialize(codec).value.requests[j].id
      ensures forall i, j :: 0 <= i < j < |Serialize(codec).value.folders| ==>
        Ordering.StrLe(Serialize(codec).value.folders[i].id, Serialize(codec).value.folders[j].id)
      ensures |Serialize(codec).value.folders| == |folders|
      ensures forall f :: f in folders ==> f.Serialize() in Serialize(codec).value.folders
      ensures forall o :: o in Serialize(codec).value.folders ==> exists f :: f in folders && o == f.Serialize()
    {
      var all := AllRequests();
      Ordering.SortBySorted(Owned(), RequestId);
      Ordering.UniqueKeysPermutation(Owned(), all, RequestId);
      forall i | 0 <= i < |all| ensures all[i].Serialize(codec).Some? && all[i].Serialize(codec).value.collectionId == Some(id) {
        assert all[i] in multiset(Owned());
        HeldRequestAttached(all[i]);
      }
      var objects := SerializeRequests(all, codec);
      assert objects.Some?;
      forall i, j | 0 <= i < j < |all|
        ensures Ordering.StrLe(objects.value[i].id, objects.value[j].id) && objects.value[i].id != objects.value[j].id
      {
        assert all[i].Serialize(codec) == Some(objects.value[i]);
        assert all[j].Serialize(codec) == Some(objects.value[j]);
      }
      assert |all| == |multiset(all)| == |multiset(Owned())| == |Owned()|;
      SortedFolders(folders);
    }
  }

  /** `obj[key] = value` when the value is present, `obj` unchanged otherwise. */
  function PutIfSome(obj: seq<(string, Value)>, key: string, v: Option<string>): seq<(string, Value)>
  {
    if v.Some? then Dicts.Put(obj, key, Str(v.value)) else obj
  }

  lemma PutIfSomeGet(obj: seq<(string, Value)>, key: string, v: Option<string>, k: string)
    ensures Dicts.NoDupKeys(obj) ==> Dicts.NoDupKeys(PutIfSome(obj, key, v))
    ensures Dicts.Get(PutIfSome(obj, key, v), k) == if k == key && v.Some? then Some(Str(v.value)) else Dicts.Get(obj, k)
  {
    if v.Some? {
      Dicts.Assigned(obj, key, Str(v.value));
    }
  }

  /** The first four assignments of `Request.serialize`. */
  function RequestHead(o: RequestObject): seq<(string, Value)>
  {
    Dicts.Put(Dicts.Put(Dicts.Put(Dicts.Put([], "id", Str(o.id)), "name", Str(o.name)),
                        "url", Str(o.url)), "method", Str(o.httpMethod))
  }

  lemma RequestHeadGet(o: RequestObject, k: string)
    ensures Dicts.NoDupKeys(RequestHead(o))
    ensures Dicts.Get(RequestHead(o), k)
      == if k == "id" then Some(Str(o.id)) else if k == "name" then Some(Str(o.name))
         else if k == "url" then Some(Str(o.url)) else if k == "method" then Some(Str(o.httpMethod))
         else None
  {
    var o1 := Dicts.Put([], "id", Str(o.id));
    var o2 := Dicts.Put(o1, "name", Str(o.name));
    var o3 := Dicts.Put(o2, "url", Str(o.url));
    Dicts.Assigned([], "id", Str(o.id));
    Dicts.Assigned(o1, "name", Str(o.name));
    Dicts.Assigned(o2, "url", Str(o.url));
    Dicts.Assigned(o3, "method", Str(o.httpMethod));
  }

  /** The body assignments of `Request.serialize`: none, or the mode and then its payload. */
  function WithBody(obj: seq<(string, Value)>, body: Body): seq<(string, Value)>
  {
    match body
    case NoBody => obj
    case UrlEncoded(entries) => Dicts.Put(Dicts.Put(obj, "dataMode", Str("urlencoded")), "data", List(entries))
    case Raw(text) => Dicts.Put(Dicts.Put(obj, "dataMode", Str("raw")), "rawModeData", Str(text))
  }

  lemma WithBodyGet(obj: seq<(string, Value)>, body: Body, k: string)
    ensures Dicts.NoDupKeys(obj) ==> Dicts.NoDupKeys(WithBody(obj, body))
    ensures Dicts.Get(WithBody(obj, body), k)
      == if k == "dataMode" && body.UrlEncoded? then Some(Str("urlencoded"))
         else if k == "dataMode" && body.Raw? then Some(Str("raw"))
         else if k == "data" && body.UrlEncoded? then Some(List(body.entries))
         else if k == "rawModeData" && body.Raw? then Some(Str(body.rawModeData))
         else Dicts.Get(obj, k)
  {
    match body {
      case NoBody =>
      case UrlEncoded(entries) =>
        Dicts.Assigned(obj, "dataMode", Str("urlencoded"));
        Dicts.Assigned(Dicts.Put(obj, "dataMode", Str("urlencoded")), "data", List(entries));
      case Raw(text) =>
        Dicts.Assigned(obj, "dataMode", Str("raw"));
        Dicts.Assigned(Dicts.Put(obj, "dataMode", Str("raw")), "rawModeData", Str(text));
    }
  }

  /** The description assignments of `Request.serialize`: none, or its format and the text. */
  function WithDescription(obj: seq<(string, Value)>, description: Option<string>): seq<(string, Value)>
  {
    if description.Some?
    then Dicts.Put(Dicts.Put(obj, "descriptionFormat", Str("markdown")), "description", Str(description.value))
    else obj
  }

  lemma WithDescriptionGet(obj: seq<(string, Value)>, description: Option<string>, k: string)
    ensures Dicts.NoDupKeys(obj) ==> Dicts.NoDupKeys(WithDescription(obj, description))
    ensures Dicts.Get(WithDescription(obj, description), k)
      == if k == "descriptionFormat" && description.Some? then Some(Str("markdown"))
         else if k == "description" && description.Some? then Some(Str(description.value))
         else Dicts.Get(obj, k)
  {
    if description.Some? {
      Dicts.Assigned(obj, "descriptionFormat", Str("markdown"));
      Dicts.Assigned(Dicts.Put(obj, "descriptionFormat", Str("markdown")), "description", Str(description.value));
    }
  }

  /** `Request.serialize` as the OrderedDict its assignments build:
      `id, name, url, method, [dataMode, data | rawModeData], headers,
      [descriptionFormat, description], [collectionId], [folder]`. */
  function RequestValue(o: RequestObject): Value
  {
    var obj := Dicts.Put(WithBody(RequestHead(o), o.body), "headers", Str(o.headers));
    Dict(PutIfSome(PutIfSome(WithDescription(obj, o.description), "collectionId", o.collectionId), "folder", o.folder))
  }

  /** Key by key, what the request dict holds: each field under its own key, and the
      optional keys only when their field is present. */
  function RequestField(o: RequestObject, k: string): Option<Value>
  {
    if k == "id" then Some(Str(o.id))
    else if k == "name" then Some(Str(o.name))
    else if k == "url" then Some(Str(o.url))
    else if k == "method" then Some(Str(o.httpMethod))
    else if k == "headers" then Some(Str(o.headers))
    else if k == "dataMode" then
      match o.body
      case NoBody => None
      case UrlEncoded(_) => Some(Str("urlencoded"))
      case Raw(_) => Some(Str("raw"))
    else if k == "data" then (if o.body.UrlEncoded? then Some(List(o.body.entries)) else None)
    else if k == "rawModeData" then (if o.body.Raw? then Some(Str(o.body.rawModeData)) else None)
    else if k == "descriptionFormat" then (if o.description.Some? then Some(Str("markdown")) else None)
    else if k == "description" then (if o.description.Some? then Some(Str(o.description.value)) else None)
    else if k == "collectionId" then (if o.collectionId.Some? then Some(Str(o.collectionId.value)) else None)
    else if k == "folder" then (if o.folder.Some? then Some(Str(o.folder.value)) else None)
    else None
  }

  /** Every key of the request dict is assigned once, and the dict holds exactly the
      fields `RequestField` names. */
  lemma RequestValueFields(o: RequestObject)
    ensures RequestValue(o).Dict? && Dicts.NoDupKeys(RequestValue(o).fields)
    ensures forall k :: Field(RequestValue(o), k) == RequestField(o, k)
  {
    var o1 := WithBody(RequestHead(o), o.body);
    var o2 := Dicts.Put(o1, "headers", Str(o.headers));
    var o3 := WithDescription(o2, o.description);
    var o4 := PutIfSome(o3, "collectionId", o.collectionId);
    forall k ensures Field(RequestValue(o), k) == RequestField(o, k) {
      RequestHeadGet(o, k);
      WithBodyGet(RequestHead(o), o.body, k);
      Dicts.GetPut(o1, "headers", Str(o.headers), k);
      WithDescriptionGet(o2, o.description, k);
      PutIfSomeGet(o3, "collectionId", o.collectionId, k);
      PutIfSomeGet(o4, "folder", o.folder, k);
    }
    RequestHeadGet(o, "");
    WithBodyGet(RequestHead(o), o.body, "");
    Dicts.PutNoDup(o1, "headers", Str(o.headers));
    WithDescriptionGet(o2, o.description, "");
    PutIfSomeGet(o3, "collectionId", o.collectionId, "");
    PutIfSomeGet(o4, "folder", o.folder, "");
  }

  /** The ids of `order` as a JSON list of strings. */
  function IdList(ids: seq<string>): Value
  {
    List(seq(|ids|, i requires 0 <= i < |ids| => Str(ids[i])))
  }

  /** `Folder.serialize` as the OrderedDict its assignments build: `id, name, order`. */
  function FolderValue(o: FolderObject): Value
  {
    Dict(Dicts.Put(Dicts.Put(Dicts.Put([], "id", Str(o.id)), "name", Str(o.name)), "order", IdList(o.order)))
  }

  /** The folder dict has its three keys once each, holding the folder's fields. */
  lemma FolderValueFields(o: FolderObject)
    ensures FolderValue(o).Dict? && Dicts.NoDupKeys(FolderValue(o).fields)
    ensures Dicts.Keys(FolderValue(o).fields) == ["id", "name", "order"]
    ensures Field(FolderValue(o), "id") == Some(Str(o.id))
    ensures Field(FolderValue(o), "name") == Some(Str(o.name))
    ensures Field(FolderValue(o), "order") == Some(IdList(o.order))
  {
    var items := [("id", Str(o.id)), ("name", Str(o.name)), ("order", IdList(o.order))];
    assert Dicts.Put([], "id", Str(o.id)) == items[..1];
    assert Dicts.Put(items[..1], "name", Str(o.name)) == items[..2];
    assert Dicts.Put(items[1..2], "order", IdList(o.order)) == items[1..];
    assert Dicts.Put(items[..2], "order", IdList(o.order)) == [items[0]] + items[1..] == items;
    assert Dicts.Keys(items) == ["id", "name", "order"];
    assert Dicts.Get(items, "name") == Dicts.Get(items[1..], "name");
    assert Dicts.Get(items, "order") == Dicts.Get(items[1..], "order") == Dicts.Get(items[2..], "order");
  }

  /** `Collection.serialize` as the OrderedDict its assignments build:
      `id, name, [description], order, folders, requests`. */
  function CollectionValue(o: CollectionObject): Value
  {
    var obj := PutIfSome(Dicts.Put(Dicts.Put([], "id", Str(o.id)), "name", Str(o.name)), "description", o.description);
    var obj := Dicts.Put(obj, "order", IdList(o.order));
    var obj := Dicts.Put(obj, "folders", List(seq(|o.folders|, i requires 0 <= i < |o.folders| => FolderValue(o.folders[i]))));
    Dict(Dicts.Put(obj, "requests", List(seq(|o.requests|, i requires 0 <= i < |o.requests| => RequestValue(o.requests[i])))))
  }

  /** The collection dict has each key once; its lists hold the folder and request dicts in
      the order of the serialised objects, and the description is there exactly when the
      collection has one. */
  lemma CollectionValueFields(o: CollectionObject)
    ensures CollectionValue(o).Dict? && Dicts.NoDupKeys(CollectionValue(o).fields)
    ensures Field(CollectionValue(o), "id") == Some(Str(o.id))
    ensures Field(CollectionValue(o), "name") == Some(Str(o.name))
    ensures Field(CollectionValue(o), "description") == if o.description.Some? then Some(Str(o.description.value)) else None
    ensures Field(CollectionValue(o), "order") == Some(IdList(o.order))
    ensures Field(CollectionValue(o), "folders").Some? && Field(CollectionValue(o), "folders").value.List?
    ensures Field(CollectionValue(o), "requests").Some? && Field(CollectionValue(o), "requests").value.List?
    ensures var fs := Field(CollectionValue(o), "folders").value.items;
      |fs| == |o.folders| && forall i :: 0 <= i < |fs| ==> fs[i] == FolderValue(o.folders[i])
    ensures var rs := Field(CollectionValue(o), "requests").value.items;
      |rs| == |o.requests| && forall i :: 0 <= i < |rs| ==> rs[i] == RequestValue(o.requests[i])
  {
    var folders := List(seq(|o.folders|, i requires 0 <= i < |o.folders| => FolderValue(o.folders[i])));
    var requests := List(seq(|o.requests|, i requires 0 <= i < |o.requests| => RequestValue(o.requests[i])));
    var o1 := Dicts.Put([], "id", Str(o.id));
    var o2 := Dicts.Put(o1, "name", Str(o.name));
    var o3 := PutIfSome(o2, "description", o.description);
    var o4 := Dicts.Put(o3, "order", IdList(o.order));
    var o5 := Dicts.Put(o4, "folders", folders);
    Dicts.Assigned([], "id", Str(o.id));
    Dicts.Assigned(o1, "name", Str(o.name));
    forall k ensures Dicts.Get(o3, k) == if k == "description" && o.description.Some? then Some(Str(o.description.value)) else Dicts.Get(o2, k) {
      PutIfSomeGet(o2, "description", o.description, k);
    }
    PutIfSomeGet(o2, "description", o.description, "");
    Dicts.Assigned(o3, "order", IdList(o.order));
    Dicts.Assigned(o4, "folders", folders);
    Dicts.Assigned(o5, "requests", requests);
  }
}
