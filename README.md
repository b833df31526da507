# A verified model of the mitmproxy Postman addon

`lib/postman.py` is a mitmproxy addon. It watches the requests a client sends through the
proxy and keeps those addressed to one host, building a Postman collection from them in
memory. Routing is by path:

- After one leading `/` is removed, a request whose path still contains a `/` goes to a folder named after the text before that `/`. The folder is created the first time that name is seen and reused afterwards.
- Every other request goes into the collection's ungrouped list.

Each request then becomes an ordered dict, a fixed sequence of keys that Postman
understands. Its body appears in one of three forms: url-encoded, raw text, or raw JSON.

The model is written in Dafny in the form of the source:

- `Request`, `Folder`, `Collection` and `Postman` are classes. Their methods update the fields the source updates, with `modifies` clauses.
- The header-copying loop of `Postman.request` and the extend loop of `get_all_requests` are methods with loops and invariants.
- The pure steps are functions:
  - the path without its query string;
  - the form-urlencoded parse;
  - the choice of `data` and `is_json`;
  - the routing decision;
  - the `serialize` methods.

The modules are:

- `Text`: Python's `split`, `join`, `find` and substring test.
- `Dicts`: Python's insertion-ordered dict, as a list of items. Assignment replaces a value in place and appends a new key.
- `Ordering`: Python's `str` order and `sorted(..., key=...)`.
- `Values`: the JSON values.
- `Ingest`: the pure parts of `Postman.request`.
- `Containers`: the three data classes and their serialisers.
- `Coordinator`: the addon.

The state the addon keeps is summed up by two invariants:

- `Containers.Collection.Valid`: every held request points back to its holder, and every folder to the collection. No folder is held twice and no two held requests share an id.
- `Coordinator.Postman.Valid`: the collection's invariant, plus `folder_dict` indexes exactly the collection's folders by name.

Every `Postman` method keeps `Postman.Valid`. The add methods of `Collection` and `Folder` keep `Collection.Valid` when the added request's id is new to the collection, or when the added folder is new and empty. `Request.SetParent` makes no such promise, and the addon never calls it. `Postman.OnRequest`, the `request` hook, states, among other things:

- on which inputs it ignores the flow or fails;
- that it then changes nothing;
- that otherwise the multiset of held requests grows by exactly the new request;
- which list the new request went into.

Three behaviours of the code are worth stating outright:

- **`collectionId` of a detached folder.** `Request.serialize` calls `get_collection_id` on any parent that is not `None` (lib/postman.py:276-277), and `Folder.get_collection_id` reads `self._collection.id` (lib/postman.py:199), which raises when the folder has no collection. So `Containers.Request.Serialize` returns `None` there.
- **A JSON request with an empty body.** For a POST or PUT with no body, `content` stays `b""` (lib/postman.py:49-50) and `json.loads` fails silently (lib/postman.py:56-59). With a `json` Content-Type the request is recorded with `data = b""` and `is_json = True` (lib/postman.py:61, 67-68). Serialising it calls `json.dumps(b"")` (lib/postman.py:271), which raises `TypeError` because bytes are not JSON. So `Containers.Request.Serialize` returns `None` for it. The request stays held, so from then on every `Collection.serialize`, and every `save_to_file` at the end of `Postman.request` (lib/postman.py:92, 175), raises: `Containers.Collection.SerializeSucceeds` states exactly when serialising a valid collection succeeds.
- **Folder lookup.** The code tests `folder_dict.get(name)` for truthiness (lib/postman.py:85), not membership. A `Folder` object is always truthy, so this is the same as membership, and membership is what is modelled.

## Model

| member | source | states |
|---|---|---|
| Ingest.GetPath | lib/postman.py:94-104 | the result never contains `?`; it is the prefix before the first `?` when there is one, and the whole path otherwise |
| Text.Find | lib/postman.py:102-103 | `find` is -1 exactly when the character is absent, and otherwise the index of its first occurrence |
| Text.Split | lib/postman.py:78 | `split` always gives at least one piece; `JoinSplit`, `SplitPiecesFree` and `SplitJoin` pin down which |
| Text.ContainsAt | lib/postman.py:62 | the substring test `t in s` holds exactly when `t` occurs in `s` at some position |
| Text.SplitHead | lib/postman.py:78-81 | `split` gives more than one piece exactly when the separator occurs; the first piece is the text before the first separator |
| Text.JoinSplit | lib/postman.py:64 | joining the pieces of `split` with the separator gives back the text |
| Text.SplitJoin | lib/postman.py:64 | splitting a join of separator-free pieces gives back the pieces |
| Text.SplitPiecesFree | lib/postman.py:64 | no piece of `split` contains the separator |
| Coordinator.CopyHeaders | lib/postman.py:45-48 | the header loop builds a dict with unique names, no `Content-Length`, and under every other name the last value observed for it; it equals the assignments of the kept items in order |
| Ingest.KeptHeadersDict | lib/postman.py:45-48 | the dict assigned from the kept items has unique names, no `Content-Length`, and the last observed value under every other name |
| Ingest.KeptHeadersMembers | lib/postman.py:46-47 | the kept items are exactly the observed items not named `Content-Length` |
| Ingest.KeptHeadersDistinct | lib/postman.py:46-47 | when no name was observed twice, no name is kept twice |
| Ingest.RecordedContentType | lib/postman.py:45-62 | `headers.get('Content-Type', '')` on the copied headers is the last Content-Type observed, or `""` when there was none |
| Coordinator.RecordedHeaderText | lib/postman.py:272 | when no header name was observed twice, the `headers` text of the record is built line by line: one more observed header adds its `name: value` line at the end, unless it is `Content-Length` |
| Ingest.KeptHeadersLastValue | lib/postman.py:46-48 | leaving out `Content-Length` changes the last value of no other name |
| Dicts.GetPut | lib/postman.py:48 | after `d[k] = v`, `k` holds `v` and every other key keeps its value |
| Dicts.FromPairsKeys | lib/postman.py:64 | a dict built by assignments has its keys in order of first assignment |
| Dicts.FromPairsGet | lib/postman.py:64 | a dict built by assignments holds the last assigned value under each key |
| Ingest.DecodeContent | lib/postman.py:49-51 | a missing body stays `None`, an empty one stays empty bytes, any other is decoded; decoding fails exactly when a non-empty body is not UTF-8 |
| Ingest.LoadJson | lib/postman.py:56-59 | a text body that parses as JSON is replaced by the parsed value; every other body is left as it was |
| Ingest.FormFieldIsSplit | lib/postman.py:64 | a piece with `=` gives the key before the first `=` and the value between the first and second `=` of its `split('=')` |
| Ingest.FormPairs | lib/postman.py:64 | the pairs fail exactly when some piece has no `=`; otherwise there is one pair per piece, parsed by `FormFieldIsSplit`'s rule |
| Ingest.ParseForm | lib/postman.py:62-66 | the form parse fails exactly when some `&`-piece lacks `=`; otherwise keys are unique, in order of first occurrence, and a later duplicate key overwrites the value |
| Ingest.ParseEncodedForm | lib/postman.py:64 | parsing `k=v&...` built from fields with unique keys and no `&` or `=` gives back exactly those fields |
| Ingest.Classify | lib/postman.py:53-68 | only POST and PUT carry data; `is_json` holds exactly for a write whose Content-Type does not contain `form-urlencoded` but contains `json`; a form body that parses becomes the dict, and any other body is left as it was |
| Ingest.EmptyJsonBody | lib/postman.py:49-68 | a POST or PUT with a `json` Content-Type and an empty body is recorded with `data = b""` and `is_json` set, and `json.dumps` refuses that body |
| Ingest.Route | lib/postman.py:71-81 | after one leading `/` is removed, the request goes to a folder exactly when a `/` remains, and that folder is named by the text before it |
| Coordinator.Postman.constructor | lib/postman.py:27-34 | a new addon has an empty collection with no description and an empty folder index, and its invariant holds |
| Coordinator.Postman.FileUngrouped | lib/postman.py:82-83 | an ungrouped request is appended to the collection's list, with the collection as its parent; the invariant is kept and the held requests grow by it |
| Coordinator.Postman.FolderFor | lib/postman.py:85-90 | a known name gives its cached folder and changes nothing; a new name gives a fresh, empty folder with the given id, appended to the collection and cached; the held requests are unchanged |
| Coordinator.Postman.NewFolder | lib/postman.py:88-90 | the new folder is fresh and empty, attached to the collection and appended to its folders, and cached under its name; the invariant holds |
| Coordinator.Postman.FileInFolder | lib/postman.py:84-91 | the request is appended to the folder of that name, which is created only if the name is new; no other folder changes; the held requests grow by exactly this request |
| Coordinator.Postman.File | lib/postman.py:82-91 | filing the request following its route keeps the invariant and grows the held requests by exactly this request |
| Coordinator.Postman.Record | lib/postman.py:45-91 | the recorded request carries the query-free path as its name, the URL, the method, the kept headers, and the data and `is_json` of `Classify`; it is filed as routed |
| Coordinator.Postman.OnRequest | lib/postman.py:36-92 | a flow for another host is ignored and a body that fails to decode aborts, both leaving everything unchanged; otherwise one fresh request is recorded, the held requests grow by exactly that request, the invariant is kept, and the three routing cases are stated |
| Containers.Request.constructor | lib/postman.py:223-242 | every field is set from its argument |
| Containers.Request.SetParent | lib/postman.py:244-250 | the parent becomes the given one |
| Containers.Request.EncodeBody | lib/postman.py:263-271 | encoding fails exactly when the body is JSON and holds bytes, which `json.dumps` refuses; otherwise no body exactly when `data` is `None`; urlencoded exactly for a dict that is not JSON, one entry per item in dict order; raw `str(data)` for any other non-JSON body; raw JSON text for a JSON body |
| Containers.Request.Serialize | lib/postman.py:252-280 | serialising fails exactly when `json.dumps` refuses the body or the parent is a folder without a collection; `collectionId` is present exactly when there is a parent and is its collection's id; `folder` is present exactly when the parent is a folder and is that folder's id |
| Containers.HeaderBlockAppend | lib/postman.py:272 | the header text of two lists of items is their texts one after the other |
| Containers.RequestValueFields | lib/postman.py:258-280 | the request dict assigns each key once, and holds every field under its own key; optional keys are present exactly when their field is |
| Containers.Folder.constructor | lib/postman.py:182-192 | a new folder is empty, with the given name, id and collection |
| Containers.Folder.AddRequest | lib/postman.py:201-208 | the request is appended and gets this folder as its parent; in a valid collection the held requests grow by it, and a new id keeps the collection valid |
| Containers.Folder.GetCollectionId | lib/postman.py:194-199 | the collection id is absent exactly when the folder has no collection (where the source raises), and otherwise is that collection's id |
| Containers.Folder.Serialize | lib/postman.py:210-219 | id, name, and the ids of its requests in append order |
| Containers.FolderValueFields | lib/postman.py:215-219 | the folder dict has exactly the keys `id, name, order`, in that order, holding the folder's fields |
| Containers.Collection.constructor | lib/postman.py:108-118 | a new collection has no requests and no folders |
| Containers.Collection.AddRequest | lib/postman.py:126-133 | the request is appended to the ungrouped list with this collection as parent, folders are unchanged, the held requests grow by it, and a new id keeps the collection valid |
| Containers.Collection.AddFolder | lib/postman.py:135-142 | the folder is appended and attached, nothing else changes, an empty folder adds no held request, and a new empty folder keeps the collection valid |
| Containers.Collection.GetAllRequests | lib/postman.py:144-152 | the result is sorted by id and is a permutation of the ungrouped requests followed by each folder's requests |
| Containers.Collection.AllRequestsCanonical | lib/postman.py:144-152 | in a valid collection, any arrangement of the held requests sorted by id is the result of `get_all_requests`, so that order depends only on which requests are held |
| Ordering.SortBy | lib/postman.py:152 | `sorted` returns a permutation of its input |
| Ordering.SortBySorted | lib/postman.py:152 | `sorted(..., key=id)` returns its input in ascending order of the key |
| Ordering.SortedUnique | lib/postman.py:152 | two arrangements of the same elements, both sorted with no repeated key, are equal |
| Containers.SerializeRequests | lib/postman.py:166-167 | serialising a list fails exactly when one request fails; otherwise one object per request, in order |
| Containers.SortedFolders | lib/postman.py:165 | the folder objects come in ascending id order, one per folder; every folder's object is listed and every listed object is some folder's |
| Containers.Collection.Serialize | lib/postman.py:154-168 | serialising fails exactly when one of the requests of `get_all_requests` fails; otherwise the object carries the collection's id, name and description, `order` is the ungrouped ids in append order, and there is one folder object per folder |
| Containers.Collection.SerializeSucceeds | lib/postman.py:154-168 | a valid collection serialises exactly when every held request has a body `json.dumps` accepts |
| Containers.Collection.SerializeValid | lib/postman.py:154-168 | when every held body can be dumped, a valid collection serialises, with its id and name; `order` is the ungrouped ids in append order; one request object per held request, strictly ascending by id, each carrying this collection's id |
| Containers.Collection.SerializedRequestsHeld | lib/postman.py:166-167 | in a valid collection whose held bodies can all be dumped, the serialised requests are exactly the objects of the held requests |
| Containers.CollectionValueFields | lib/postman.py:159-168 | the collection dict assigns each key once and holds the id, the name, the order, the folder dicts and the request dicts; `description` is present exactly when the collection has one |

## Left out

- `load`, `configure` and the global `addons` list: plugin configuration through mitmproxy's `ctx` and global state.
- The log line printed for every recorded request: output only.
- `Collection.save_to_file`, called at the end of every recorded request: it writes the serialised collection to a file with `json.dump`, which is I/O. The model stops at the state that `Collection.Serialize` and `CollectionValue` turn into that dict.
- `uuid.uuid4()`: ids are parameters.
  - `Postman.OnRequest` requires the new request id to differ from every held id.
  - Folder ids are not required to be distinct.
  - An equal folder id only affects the relative order of those folders in `folders`.
- `content.decode('utf-8')`, `json.loads`, `json.dumps(..., indent=4)` and `str(...)` are foreign calls. They are parameters of the model:
  - `utf8` and `loads` return `None` where the source raises;
  - `Codec` holds the two renderings. `json.dumps` raises exactly on a value holding bytes (`Values.Dumpable`); the model checks that before it uses `dumps`, so the text `dumps` gives matters only for values it accepts.
- The mitmproxy flow object is a plain `Flow` record, and its `headers.items()` is the list of observed items. mitmproxy's case-insensitive, multi-valued header type is not modelled: names are compared exactly, as the source's `k != 'Content-Length'` does.
- The `Folder.order` attribute: it is set in the constructor and never read or updated.
- The `None` defaults of `Request(method=None, headers=None)`: the addon always passes both.
  - The method is a string.
  - The headers are a list of items; an empty list serialises like `None`.
- Python's dynamic typing: names, URLs and ids are strings, and `data` is a JSON `Value`.
- Containers.SortedFolders: states the count of folder objects and membership in both directions, not that the list is a permutation of the folders' objects.
- Containers.RequestValueFields: states what each key holds and that no key repeats, not the order of the keys. That order is the order of the assignments in `RequestValue`.
- Containers.CollectionValueFields: states what each key holds and that no key repeats, not the order of the keys. That order is the order of the assignments in `CollectionValue`.
- Ordering.SortBy: the insertion sort is stable, as `sorted` is, but stability itself is not proved. Stability matters only for folders with equal ids.
- Exceptions raised inside `request`: a body that fails to decode ends the call before anything changes (`DecodeFailed`). A missing folder collection, which only a standalone `Request.serialize` can meet, is a `None` of `Request.Serialize`. The `TypeError` of `json.dumps` on an empty JSON body is raised by `save_to_file`, after the request was filed: it is the `None` of `Collection.Serialize` stated by `SerializeSucceeds`, and `Postman.OnRequest` states the state it leaves.
