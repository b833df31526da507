/**
  The `Postman` addon of lib/postman.py: it records every request sent to one host into
  a collection, filing it under the folder named by the first segment of its path.
*/
module Coordinator {
  import opened Wrappers
  import opened Values
  import Dicts
  import Ordering
  import Ingest
  import opened Containers

  /** What the addon sees of one intercepted request. */
  datatype Flow = Flow(
    host: string, url: string, path: string, httpMethod: string,
    headers: seq<(string, string)>, content: Option<seq<byte>>)

  /** How a call of `request` ends: the flow is for another host; decoding its body raised;
      or a request was recorded. */
  datatype Outcome = Ignored | DecodeFailed | Recorded(req: Request)

  /** The header loop of `Postman.request`: every observed item except `Content-Length`
      is assigned into a fresh dict, so a repeated name keeps its first position and its
      last value. */
  method CopyHeaders(observed: seq<(string, string)>) returns (headers: seq<(string, string)>)
    ensures Dicts.NoDupKeys(headers)
    ensures Ingest.ContentLength !in Dicts.Keys(headers)
    ensures forall k :: k != Ingest.ContentLength ==> Dicts.Get(headers, k) == Dicts.LastValue(observed, k)
    ensures headers == Dicts.FromPairs(Ingest.KeptHeaders(observed))
  {
    headers := [];
    var i := 0;
    while i < |observed|
      invariant 0 <= i <= |observed|
      invariant headers == Dicts.FromPairs(Ingest.KeptHeaders(observed[..i]))
    {
      var (k, v) := observed[i];
      Ingest.KeptHeadersStep(observed, i);
      if k != Ingest.ContentLength {
        headers := Dicts.Put(headers, k, v);
      }
      i := i + 1;
    }
    assert observed[..i] == observed;
    Ingest.KeptHeadersDict(observed);
  }

  /** The `headers` text a recorded request serialises to: when no header name was
      observed twice, one more observed header adds its `name: value` line at the end,
      unless it is `Content-Length`; so the text is the observed lines in observed order. */
  lemma {:induction false} RecordedHeaderText(observed: seq<(string, string)>, p: (string, string))
    requires Dicts.NoDupKeys(observed + [p])
    ensures HeaderBlock(Dicts.FromPairs(Ingest.KeptHeaders(observed + [p])))
         == HeaderBlock(Dicts.FromPairs(Ingest.KeptHeaders(observed)))
            + if p.0 != Ingest.ContentLength then HeaderLine(p) else ""
  {
    assert (observed + [p])[..|observed|] == observed;
    assert Dicts.NoDupKeys(observed);
    Ingest.KeptHeadersDistinct(observed);
    Ingest.KeptHeadersDistinct(observed + [p]);
    Dicts.FromPairsDistinct(Ingest.KeptHeaders(observed));
    Dicts.FromPairsDistinct(Ingest.KeptHeaders(observed + [p]));
    Ingest.KeptHeadersAppend(observed, p);
    var last := if p.0 != Ingest.ContentLength then [p] else [];
    HeaderBlockAppend(Ingest.KeptHeaders(observed), last);
    assert HeaderBlock(last) == if p.0 != Ingest.ContentLength then HeaderLine(p) else "";
  }

  class Postman {
    const host: string
    const collection: Collection
    var folderDict: map<string, Folder>

    /** `Postman.__init__`: an empty collection without description and no folders. */
    constructor (host: string, collectionName: string, collectionId: string)
      ensures this.host == host && folderDict == map[]
      ensures collection.id == collectionId && collection.name == collectionName
      ensures collection.description == None
      ensures collection.requests == [] && collection.folders == []
      ensures Valid()
    {
      this.host := host;
      this.collection := new Collection(collectionId, collectionName, None);
      this.folderDict := map[];
    }

    /** `folderDict` indexes exactly the collection's folders by their names. */
    ghost predicate Indexed()
      reads this, collection
    {
      && (forall n :: n in folderDict ==> folderDict[n] in collection.folders && folderDict[n].name == n)
      && (forall f :: f in collection.folders ==> f.name in folderDict && folderDict[f.name] == f)
    }

    /** The addon's invariant: the collection's own, and the folder index. */
    ghost predicate Valid()
      reads this, collection, set f: Folder | f in collection.folders
      reads set r: Request | r in collection.Owned()
    {
      collection.Valid() && Indexed()
    }

    /** The filing step of `Postman.request` for a path without folder: the request joins
        the collection's ungrouped list. */
    method FileUngrouped(req: Request)
      requires Valid()
      requires forall r :: r in collection.Owned() ==> r.id != req.id
      modifies collection, req
      ensures Valid()
      ensures collection.requests == old(collection.requests) + [req]
      ensures req.parent == CollectionParent(collection)
      ensures collection.folders == old(collection.folders)
      ensures multiset(collection.Owned()) == old(multiset(collection.Owned())) + multiset{req}
    {
      collection.AddRequest(req);
    }

    /** The folder lookup of `Postman.request`: the folder `folderDict` has under `name`, or
        else a new folder of that name, added to the collection and to `folderDict`. */
    method FolderFor(name: string, folderId: string) returns (folder: Folder)
      requires Valid()
      modifies this, collection
      ensures Valid()
      ensures name in folderDict && folderDict[name] == folder
      ensures folder in collection.folders && folder.collection == collection
      ensures name in old(folderDict) ==>
        folder == old(folderDict[name]) && folderDict == old(folderDict) && collection.folders == old(collection.folders)
      ensures name !in old(folderDict) ==>
        && fresh(folder) && folder.id == folderId && folder.name == name && folder.requests == []
        && folderDict == old(folderDict)[name := folder]
        && collection.folders == old(collection.folders) + [folder]
      ensures collection.requests == old(collection.requests)
      ensures collection.Owned() == old(collection.Owned())
      ensures forall f :: f in old(collection.folders) ==> f.requests == old(f.requests)
    {
      if name in folderDict {
        folder := folderDict[name];
      } else {
        folder := NewFolder(name, folderId);
      }
    }

    /** The miss branch of the folder lookup: a new, empty folder named `name` joins the
        collection and `folderDict`. */
    method NewFolder(name: string, folderId: string) returns (folder: Folder)
      requires Valid() && name !in folderDict
      modifies this, collection
      ensures Valid()
      ensures fresh(folder) && folder.id == folderId && folder.name == name && folder.requests == []
      ensures folder.collection == collection
      ensures folderDict == old(folderDict)[name := folder]
      ensures collection.folders == old(collection.folders) + [folder]
      ensures collection.requests == old(collection.requests)
      ensures collection.Owned() == old(collection.Owned())
      ensures forall f :: f in old(collection.folders) ==> f.requests == old(f.requests)
    {
      ghost var owned := collection.Owned();
      folder := new Folder(folderId, name, collection);
      assert collection.Valid() && folder !in collection.folders;
      collection.AddFolder(folder);
      assert collection.Owned() == owned;
      folderDict := folderDict[name := folder];
    }

    /** The filing step of `Postman.request` for a path whose first segment is `name`: the
        folder of that name receives the request. */
    method FileInFolder(req: Request, name: string, folderId: string)
      requires Valid()
      requires forall r :: r in collection.Owned() ==> r.id != req.id
      modifies this, collection, req, set f: Folder | f in collection.folders
      ensures Valid()
      ensures name in folderDict && req.parent == FolderParent(folderDict[name])
      ensures collection.requests == old(collection.requests)
      ensures folderDict[name].requests == old(if name in folderDict then folderDict[name].requests else []) + [req]
      ensures forall f :: f in old(collection.folders) && f != folderDict[name] ==> f.requests == old(f.requests)
      ensures name in old(folderDict) ==> folderDict == old(folderDict) && collection.folders == old(collection.folders)
      ensures name !in old(folderDict) ==>
        && fresh(folderDict[name])
        && folderDict == old(folderDict)[name := folderDict[name]]
        && folderDict[name].id == folderId && folderDict[name].name == name
        && collection.folders == old(collection.folders) + [folderDict[name]]
      ensures multiset(collection.Owned()) == old(multiset(collection.Owned())) + multiset{req}
    {
      var folder := FolderFor(name, folderId);
      label found:
      folder.AddRequest(req);
      assert forall f :: f in old(collection.folders) && f != folder ==> f.requests == old@found(f.requests);
      assert Indexed() && collection.Valid();
    }

    /** The filing step of `Postman.request`: the request goes to the destination its
        path was routed to. */
    method File(req: Request, dest: Ingest.Destination, folderId: string)
      requires Valid()
      requires forall r :: r in collection.Owned() ==> r.id != req.id
      requires req.parent == NoParent
      modifies this, collection, req, set f: Folder | f in collection.folders
      ensures Valid()
      ensures multiset(collection.Owned()) == old(multiset(collection.Owned())) + multiset{req}
      ensures dest.Ungrouped? ==>
        && collection.requests == old(collection.requests) + [req]
        && req.parent == CollectionParent(collection)
        && folderDict == old(folderDict)
        && collection.folders == old(collection.folders)
        && forall f :: f in collection.folders ==> f.requests == old(f.requests)
      ensures dest.InFolder? ==>
        && collection.requests == old(collection.requests)
        && dest.name in folderDict
        && folderDict[dest.name].requests == old(if dest.name in folderDict then folderDict[dest.name].requests else []) + [req]
        && req.parent == FolderParent(folderDict[dest.name])
        && forall f :: f in old(collection.folders) && f != folderDict[dest.name] ==> f.requests == old(f.requests)
      ensures dest.InFolder? && dest.name in old(folderDict) ==>
        folderDict == old(folderDict) && collection.folders == old(collection.folders)
      ensures dest.InFolder? && dest.name !in old(folderDict) ==>
        && fresh(folderDict[dest.name])
        && folderDict == old(folderDict)[dest.name := folderDict[dest.name]]
        && folderDict[dest.name].id == folderId && folderDict[dest.name].name == dest.name
        && collection.folders == old(collection.folders) + [folderDict[dest.name]]
    {
      match dest
      case Ungrouped =>
        FileUngrouped(req);
      case InFolder(name) =>
        FileInFolder(req, name, folderId);
    }

    /** The recording part of `Postman.request`, once the body is decoded: build the
        request from the flow and file it where its path says. */
    method Record(flow: Flow, content: Value, loads: string -> Option<Value>,
                  requestId: string, folderId: string) returns (req: Request)
      requires Valid()
      requires forall r :: r in collection.Owned() ==> r.id != requestId
      modifies this, collection, set f: Folder | f in collection.folders
      ensures Valid()
      ensures fresh(req)
      ensures
        var path := Ingest.GetPath(flow.path);
        && req.id == requestId && req.name == path && req.url == flow.url && req.httpMethod == flow.httpMethod
        && req.headers == Dicts.FromPairs(Ingest.KeptHeaders(flow.headers))
        && (req.data, req.isJson) == Ingest.Classify(flow.httpMethod, req.headers, Ingest.LoadJson(content, loads))
        && req.description == None
      ensures multiset(collection.Owned()) == old(multiset(collection.Owned())) + multiset{req}
      ensures Ingest.Route(Ingest.GetPath(flow.path)).Ungrouped? ==>
        && collection.requests == old(collection.requests) + [req]
        && req.parent == CollectionParent(collection)
        && folderDict == old(folderDict)
        && collection.folders == old(collection.folders)
        && forall f :: f in collection.folders ==> f.requests == old(f.requests)
      ensures Ingest.Route(Ingest.GetPath(flow.path)).InFolder? ==>
        var name := Ingest.Route(Ingest.GetPath(flow.path)).name;
        && collection.requests == old(collection.requests)
        && name in folderDict
        && folderDict[name].requests == old(if name in folderDict then folderDict[name].requests else []) + [req]
        && req.parent == FolderParent(folderDict[name])
        && forall f :: f in old(collection.folders) && f != folderDict[name] ==> f.requests == old(f.requests)
      ensures Ingest.Route(Ingest.GetPath(flow.path)).InFolder? && Ingest.Route(Ingest.GetPath(flow.path)).name in old(folderDict) ==>
        folderDict == old(folderDict) && collection.folders == old(collection.folders)
      ensures Ingest.Route(Ingest.GetPath(flow.path)).InFolder? && Ingest.Route(Ingest.GetPath(flow.path)).name !in old(folderDict) ==>
        var name := Ingest.Route(Ingest.GetPath(flow.path)).name;
        && fresh(folderDict[name])
        && folderDict == old(folderDict)[name := folderDict[name]]
        && folderDict[name].id == folderId && folderDict[name].name == name
        && collection.folders == old(collection.folders) + [folderDict[name]]
    {
      var headers := CopyHeaders(flow.headers);
      var path := Ingest.GetPath(flow.path);
      var (data, isJson) := Ingest.Classify(flow.httpMethod, headers, Ingest.LoadJson(content, loads));
      req := new Request(requestId, path, flow.url, flow.httpMethod, headers, data, isJson, None, NoParent);
      File(req, Ingest.Route(path), folderId);
    }

    /** `Postman.request`. The ids the source draws from `uuid4` are `requestId` and
        `folderId`; the UTF-8 decoder and `json.loads` are `utf8` and `loads`. */
    method OnRequest(flow: Flow, utf8: seq<byte> -> Option<string>, loads: string -> Option<Value>,
                   requestId: string, folderId: string) returns (outcome: Outcome)
      requires Valid()
      requires forall r :: r in collection.Owned() ==> r.id != requestId
      modifies this, collection, set f: Folder | f in collection.folders
      ensures Valid()
      ensures outcome.Ignored? <==> flow.host != host
      ensures outcome.DecodeFailed? <==> flow.host == host && Ingest.DecodeContent(flow.content, utf8).None?
      ensures !outcome.Recorded? ==>
        && folderDict == old(folderDict)
        && collection.requests == old(collection.requests)
        && collection.folders == old(collection.folders)
        && forall f :: f in collection.folders ==> f.requests == old(f.requests)
      ensures outcome.Recorded? ==> fresh(outcome.req)
      ensures outcome.Recorded? ==>
        var r := outcome.req;
        var path := Ingest.GetPath(flow.path);
        && r.id == requestId && r.name == path && r.url == flow.url && r.httpMethod == flow.httpMethod
        && r.headers == Dicts.FromPairs(Ingest.KeptHeaders(flow.headers))
        && (r.data, r.isJson)
           == Ingest.Classify(flow.httpMethod, r.headers, Ingest.LoadJson(Ingest.DecodeContent(flow.content, utf8).value, loads))
        && r.description == None
      ensures outcome.Recorded? ==>
        multiset(collection.Owned()) == old(multiset(collection.Owned())) + multiset{outcome.req}
      ensures outcome.Recorded? && Ingest.Route(Ingest.GetPath(flow.path)).Ungrouped? ==>
        && collection.requests == old(collection.requests) + [outcome.req]
        && outcome.req.parent == CollectionParent(collection)
        && folderDict == old(folderDict)
        && collection.folders == old(collection.folders)
        && forall f :: f in collection.folders ==> f.requests == old(f.requests)
      ensures outcome.Recorded? && Ingest.Route(Ingest.GetPath(flow.path)).InFolder? ==>
        var name := Ingest.Route(Ingest.GetPath(flow.path)).name;
        && collection.requests == old(collection.requests)
        && name in folderDict
        && folderDict[name].requests == old(if name in folderDict then folderDict[name].requests else []) + [outcome.req]
        && outcome.req.parent == FolderParent(folderDict[name])
        && forall f :: f in old(collection.folders) && f != folderDict[name] ==> f.requests == old(f.requests)
      ensures outcome.Recorded? && Ingest.Route(Ingest.GetPath(flow.path)).InFolder? && Ingest.Route(Ingest.GetPath(flow.path)).name in old(folderDict) ==>
        folderDict == old(folderDict) && collection.folders == old(collection.folders)
      ensures outcome.Recorded? && Ingest.Route(Ingest.GetPath(flow.path)).InFolder? && Ingest.Route(Ingest.GetPath(flow.path)).name !in old(folderDict) ==>
        var name := Ingest.Route(Ingest.GetPath(flow.path)).name;
        && fresh(folderDict[name])
        && folderDict == old(folderDict)[name := folderDict[name]]
        && folderDict[name].id == folderId && folderDict[name].name == name
        && collection.folders == old(collection.folders) + [folderDict[name]]
    {
      if flow.host != host {
        return Ignored;
      }
      var decoded := Ingest.DecodeContent(flow.content, utf8);
      if decoded.None? {
        return DecodeFailed;
      }
      var req := Record(flow, decoded.value, loads, requestId, folderId);
      return Recorded(req);
    }
  }
}
