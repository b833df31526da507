/**
  The pure steps of `Postman.request` (lib/postman.py): the path without its query
  string, the headers kept for the record, the decoding and classification of the
  body, the best-effort form-urlencoded parser, and the routing decision.
*/
module Ingest {
  import opened Wrappers
  import opened Values
  import Text
  import Dicts

  const ContentLength := "Content-Length"
  const ContentType := "Content-Type"

  /** `Postman.get_path`: the request path up to its first `?`. */
  function GetPath(path: string): (r: string)
    ensures '?' !in r
    ensures '?' in path ==> |r| < |path| && path[|r|] == '?' && r == path[..|r|]
    ensures '?' !in path ==> r == path
  {
    if '?' in path then path[..Text.Find(path, '?')] else path
  }

  /** The observed header items other than `Content-Length`, in observed order. */
  function KeptHeaders(observed: seq<(string, string)>): seq<(string, string)>
  {
    if observed == [] then []
    else
      var last := observed[|observed| - 1];
      KeptHeaders(observed[..|observed| - 1]) + if last.0 != ContentLength then [last] else []
  }

  /** Leaving out `Content-Length` leaves the last value of every other name as it was. */
  lemma {:induction false} KeptHeadersLastValue(observed: seq<(string, string)>, k: string)
    ensures Dicts.LastValue(KeptHeaders(observed), k)
         == if k == ContentLength then None else Dicts.LastValue(observed, k)
  {
    if observed != [] {
      var n := |observed| - 1;
      KeptHeadersLastValue(observed[..n], k);
      Dicts.LastValueAppend(observed[..n], observed[n], k);
      assert observed[..n] + [observed[n]] == observed;
      if observed[n].0 != ContentLength {
        assert KeptHeaders(observed) == KeptHeaders(observed[..n]) + [observed[n]];
        Dicts.LastValueAppend(KeptHeaders(observed[..n]), observed[n], k);
      } else {
        assert KeptHeaders(observed) == KeptHeaders(observed[..n]);
      }
    }
  }

  /** Observing one more item keeps it unless it is `Content-Length`. */
  lemma KeptHeadersAppend(s: seq<(string, string)>, p: (string, string))
    ensures KeptHeaders(s + [p]) == KeptHeaders(s) + if p.0 != ContentLength then [p] else []
  {
    assert (s + [p])[..|s|] == s;
  }

  /** The kept items are exactly the observed items not named `Content-Length`. */
  lemma {:induction false} KeptHeadersMembers(observed: seq<(string, string)>)
    ensures forall p :: p in KeptHeaders(observed) <==> p in observed && p.0 != ContentLength
  {
    if observed != [] {
      var n := |observed| - 1;
      KeptHeadersMembers(observed[..n]);
      assert observed == observed[..n] + [observed[n]];
      KeptHeadersAppend(observed[..n], observed[n]);
    }
  }

  /** Names observed once each stay distinct among the kept items. */
  lemma {:induction false} KeptHeadersDistinct(observed: seq<(string, string)>)
    requires Dicts.NoDupKeys(observed)
    ensures Dicts.NoDupKeys(KeptHeaders(observed))
  {
    if observed != [] {
      var n := |observed| - 1;
      var prefix := observed[..n];
      assert Dicts.NoDupKeys(prefix);
      KeptHeadersDistinct(prefix);
      KeptHeadersMembers(prefix);
      assert observed == prefix + [observed[n]];
      KeptHeadersAppend(prefix, observed[n]);
      var kept := KeptHeaders(prefix);
      forall q | q in kept ensures q.0 != observed[n].0 {
        var m :| 0 <= m < n && prefix[m] == q;
      }
    }
  }

  /** One more observed item: assigned into the dict unless it is `Content-Length`. */
  lemma KeptHeadersStep(observed: seq<(string, string)>, i: nat)
    requires i < |observed|
    ensures Dicts.FromPairs(KeptHeaders(observed[..i + 1]))
         == if observed[i].0 != ContentLength
            then Dicts.Put(Dicts.FromPairs(KeptHeaders(observed[..i])), observed[i].0, observed[i].1)
            else Dicts.FromPairs(KeptHeaders(observed[..i]))
  {
    assert observed[..i + 1] == observed[..i] + [observed[i]];
    KeptHeadersAppend(observed[..i], observed[i]);
    if observed[i].0 != ContentLength {
      Dicts.FromPairsAppend(KeptHeaders(observed[..i]), observed[i]);
    } else {
      assert KeptHeaders(observed[..i + 1]) == KeptHeaders(observed[..i]);
    }
  }

  /** The dict of the kept headers has each name once, no `Content-Length`, and under every
      other name the last value observed for it. */
  lemma KeptHeadersDict(observed: seq<(string, string)>)
    ensures Dicts.NoDupKeys(Dicts.FromPairs(KeptHeaders(observed)))
    ensures ContentLength !in Dicts.Keys(Dicts.FromPairs(KeptHeaders(observed)))
    ensures forall k :: k != ContentLength ==>
      Dicts.Get(Dicts.FromPairs(KeptHeaders(observed)), k) == Dicts.LastValue(observed, k)
  {
    Dicts.FromPairsNoDup(KeptHeaders(observed));
    forall k ensures Dicts.Get(Dicts.FromPairs(KeptHeaders(observed)), k)
                  == if k == ContentLength then None else Dicts.LastValue(observed, k) {
      Dicts.FromPairsGet(KeptHeaders(observed), k);
      KeptHeadersLastValue(observed, k);
    }
    assert Dicts.Get(Dicts.FromPairs(KeptHeaders(observed)), ContentLength).None?;
    Dicts.GetKeys(Dicts.FromPairs(KeptHeaders(observed)), ContentLength);
  }

  /** `headers.get('Content-Type', '')`. */
  function ContentTypeOf(headers: seq<(string, string)>): string
  {
    match Dicts.Get(headers, ContentType)
    case Some(t) => t
    case None => ""
  }

  /** The Content-Type the recorded request is classified by: the last value observed under
      that name, or `""` when none was observed. */
  lemma RecordedContentType(observed: seq<(string, string)>)
    ensures ContentTypeOf(Dicts.FromPairs(KeptHeaders(observed)))
         == match Dicts.LastValue(observed, ContentType) case Some(t) => t case None => ""
  {
    KeptHeadersDict(observed);
  }

  /** The body after `if content: content = content.decode('utf-8')`: a missing body is
      `None`, an empty one stays the empty `bytes`, any other is decoded by `utf8`, whose
      failure (`None`) is the exception that aborts the whole request. */
  function DecodeContent(content: Option<seq<byte>>, utf8: seq<byte> -> Option<string>): (r: Option<Value>)
    ensures r.None? <==> content.Some? && content.value != [] && utf8(content.value).None?
    ensures content.None? ==> r == Some(Null)
    ensures content == Some([]) ==> r == Some(Bytes([]))
    ensures r.Some? && content.Some? && content.value != [] ==> r == Some(Str(utf8(content.value).value))
  {
    match content
    case None => Some(Null)
    case Some(b) =>
      if b == [] then Some(Bytes([]))
      else match utf8(b)
        case None => None
        case Some(t) => Some(Str(t))
  }

  /** `try: content = json.loads(content) except: pass`: only a text body can parse; a body
      that does not parse, and any other body, stays as it was. */
  function LoadJson(content: Value, loads: string -> Option<Value>): (r: Value)
    ensures content.Str? && loads(content.s).Some? ==> r == loads(content.s).value
    ensures !(content.Str? && loads(content.s).Some?) ==> r == content
  {
    if content.Str? && loads(content.s).Some? then loads(content.s).value else content
  }

  /** One piece `x` of a form body gives the key `x.split('=')[0]`, the text before the first
      `=`, and the value `x.split('=')[1]`, the text between the first `=` and the next `=`
      or the end. */
  function FormField(x: string): (string, string)
    requires '=' in x
  {
    var i := Text.Find(x, '=');
    var rest := x[i + 1..];
    (x[..i], if '=' in rest then rest[..Text.Find(rest, '=')] else rest)
  }

  lemma {:induction false} FormFieldIsSplit(x: string)
    requires '=' in x
    ensures |Text.Split(x, '=')| >= 2
    ensures FormField(x) == (Text.Split(x, '=')[0], Text.Split(x, '=')[1])
  {
    var i := Text.Find(x, '=');
    assert x == x[..i] + ['='] + x[i + 1..];
    Text.SplitAtFirst(x[..i], '=', x[i + 1..]);
    Text.SplitHead(x[i + 1..], '=');
  }

  /** The (key, value) pairs of the pieces, in order; absent when a piece has no `=`,
      because `x.split('=')[1]` then raises. */
  function FormPairs(pieces: seq<string>): (r: Option<seq<(string, string)>>)
    ensures r.None? <==> exists i :: 0 <= i < |pieces| && '=' !in pieces[i]
    ensures r.Some? ==> |r.value| == |pieces|
    ensures r.Some? ==> forall i :: 0 <= i < |pieces| ==> '=' in pieces[i] && r.value[i] == FormField(pieces[i])
  {
    if pieces == [] then Some([])
    else
      var parts := Text.Split(pieces[0], '=');
      Text.SplitHead(pieces[0], '=');
      if |parts| < 2 then None
      else
        FormFieldIsSplit(pieces[0]);
        match FormPairs(pieces[1..])
        case None => None
        case Some(rest) =>
          assert forall i :: 1 <= i < |pieces| ==> pieces[i] == pieces[1..][i - 1];
          Some([(parts[0], parts[1])] + rest)
  }

  /** The form-urlencoded parse `{x.split('=')[0]: x.split('=')[1] for x in data.split('&')}`:
      absent exactly when some `&`-piece has no `=`; otherwise a dict whose keys come in order
      of first occurrence and where a later duplicate key overwrites the earlier value. */
  function ParseForm(s: string): (r: Option<seq<(string, string)>>)
    ensures r.None? <==> exists x :: x in Text.Split(s, '&') && '=' !in x
    ensures r.Some? ==> Dicts.NoDupKeys(r.value)
    ensures r.Some? ==> forall k :: Dicts.Get(r.value, k) == Dicts.LastValue(FormPairs(Text.Split(s, '&')).value, k)
    ensures r.Some? ==> Dicts.Keys(r.value) == Dicts.Dedup(Dicts.Keys(FormPairs(Text.Split(s, '&')).value))
  {
    match FormPairs(Text.Split(s, '&'))
    case None => None
    case Some(pairs) =>
      Dicts.FromPairsNoDup(pairs);
      Dicts.FromPairsKeys(pairs);
      forall k ensures Dicts.Get(Dicts.FromPairs(pairs), k) == Dicts.LastValue(pairs, k) {
        Dicts.FromPairsGet(pairs, k);
      }
      Some(Dicts.FromPairs(pairs))
  }

  /** The body a form with these fields is sent as: `k=v` pieces joined by `&`. */
  function EncodeForm(fields: seq<(string, string)>): string
  {
    Text.Join(seq(|fields|, i requires 0 <= i < |fields| => fields[i].0 + "=" + fields[i].1), '&')
  }

  /** Parsing a well-formed form body gives back its fields: at least one field, keys
      unique, and no `&` or `=` inside any key or value. */
  lemma ParseEncodedForm(fields: seq<(string, string)>)
    requires |fields| >= 1
    requires Dicts.NoDupKeys(fields)
    requires forall i :: 0 <= i < |fields| ==>
      '&' !in fields[i].0 && '=' !in fields[i].0 && '&' !in fields[i].1 && '=' !in fields[i].1
    ensures ParseForm(EncodeForm(fields)) == Some(fields)
  {
    var pieces := seq(|fields|, i requires 0 <= i < |fields| => fields[i].0 + "=" + fields[i].1);
    assert forall i :: 0 <= i < |pieces| ==> '&' !in pieces[i];
    Text.SplitJoin(pieces, '&');
    assert Text.Split(EncodeForm(fields), '&') == pieces;
    var pairs := FormPairs(pieces);
    assert pairs.Some? by {
      forall i | 0 <= i < |pieces| ensures '=' in pieces[i] {
        assert pieces[i][|fields[i].0|] == '=';
      }
    }
    forall i | 0 <= i < |pieces| ensures pairs.value[i] == fields[i] {
      var k, v := fields[i].0, fields[i].1;
      assert pieces[i] == k + ['='] + v;
      Text.SplitAtFirst(k, '=', v);
      Text.SplitFree(v, '=');
      FormFieldIsSplit(pieces[i]);
    }
    assert pairs.value == fields;
    Dicts.FromPairsDistinct(fields);
  }

  /** The dict a successful form parse leaves in `data`. */
  function FormValue(fields: seq<(string, string)>): (v: Value)
    ensures v.Dict? && |v.fields| == |fields|
    ensures forall i :: 0 <= i < |fields| ==> v.fields[i] == (fields[i].0, Str(fields[i].1))
  {
    Dict(seq(|fields|, i requires 0 <= i < |fields| => (fields[i].0, Str(fields[i].1))))
  }

  predicate IsWriteMethod(verb: string)
  {
    verb == "POST" || verb == "PUT"
  }

  /** The `data` and `is_json` of the record, from the method, the kept headers and the
      (possibly JSON-decoded) body. */
  function Classify(verb: string, headers: seq<(string, string)>, content: Value): (r: (Value, bool))
    ensures !IsWriteMethod(verb) ==> r == (Null, false)
    ensures r.1 <==> IsWriteMethod(verb)
                     && !Text.Contains(ContentTypeOf(headers), "form-urlencoded")
                     && Text.Contains(ContentTypeOf(headers), "json")
    ensures IsWriteMethod(verb) && !Text.Contains(ContentTypeOf(headers), "form-urlencoded") ==> r.0 == content
    ensures IsWriteMethod(verb) && Text.Contains(ContentTypeOf(headers), "form-urlencoded")
            && content.Str? && ParseForm(content.s).Some?
            ==> r.0 == FormValue(ParseForm(content.s).value)
    ensures IsWriteMethod(verb) && !(content.Str? && ParseForm(content.s).Some?) ==> r.0 == content
  {
    if !IsWriteMethod(verb) then (Null, false)
    else
      var contentType := ContentTypeOf(headers);
      if Text.Contains(contentType, "form-urlencoded") then
        if content.Str? && ParseForm(content.s).Some? then (FormValue(ParseForm(content.s).value), false)
        else (content, false)
      else (content, Text.Contains(contentType, "json"))
  }

  /** A POST or PUT with a JSON Content-Type and an empty body is recorded as a JSON body
      holding the empty `bytes`, which `json.dumps` refuses. */
  lemma EmptyJsonBody(verb: string, headers: seq<(string, string)>,
                      utf8: seq<byte> -> Option<string>, loads: string -> Option<Value>)
    requires IsWriteMethod(verb)
    requires !Text.Contains(ContentTypeOf(headers), "form-urlencoded")
    requires Text.Contains(ContentTypeOf(headers), "json")
    ensures DecodeContent(Some([]), utf8).Some?
    ensures Classify(verb, headers, LoadJson(DecodeContent(Some([]), utf8).value, loads)) == (Bytes([]), true)
    ensures !Dumpable(Bytes([]))
  {
  }

  /** Where a request is filed: the collection's ungrouped list, or the folder of the
      first path segment. */
  datatype Destination = Ungrouped | InFolder(name: string)

  /** The path with one leading `/` removed. */
  function StripSlash(path: string): string
  {
    if path != [] && path[0] == '/' then path[1..] else path
  }

  /** The routing of `Postman.request`: after one leading `/` is removed, a path that
      splits into more than one `/`-segment goes to the folder named by its first segment;
      every other path, the empty path and `/` among them, stays ungrouped. */
  function Route(path: string): (d: Destination)
    ensures d.InFolder? <==> '/' in StripSlash(path)
    ensures d.InFolder? ==> d.name == StripSlash(path)[..Text.Find(StripSlash(path), '/')]
  {
    if path != "" && path != "/" then
      var p := if path[0] == '/' then path[1..] else path;
      var segments := Text.Split(p, '/');
      Text.SplitHead(p, '/');
      if |segments| > 1 then InFolder(segments[0]) else Ungrouped
    else Ungrouped
  }
}
