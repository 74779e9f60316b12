/** The request-building and response-handling logic of cars-service.js: the
    query encoder createURL, the URL of each endpoint, the status check every
    request shares, and the coercion of form entries into the JSON payload of
    addCar and editCar. The XMLHttpRequest plumbing around them is not
    modelled. */
module CarsService {
  import opened Wrappers
  import opened JsValues
  import opened Strings
  import opened UriComponent
  import opened NumberParsing

  const BaseUrl := "https://backend-jscamp.saritasa-hosting.com"

  // ---------------------------------------------------------------------------
  // createURL

  /** An object's own enumerable properties in for-in order. */
  type Params = seq<(string, Value)>

  /** The properties createURL keeps, in order, with each value converted by
      String(v): exactly those whose value is truthy. */
  function Kept(params: Params): (r: seq<(string, string)>)
    ensures |r| <= |params|
  {
    if params == [] then []
    else
      var (key, value) := params[|params| - 1];
      Kept(params[..|params| - 1]) + (if Truthy(value) then [(key, ToString(value))] else [])
  }

  /** "key=value", both sides passed through encodeURIComponent. */
  function EncodePair(p: (string, string)): string
  {
    Encode(p.0) + "=" + Encode(p.1)
  }

  function EncodePairs(ps: seq<(string, string)>): (r: seq<string>)
    ensures |r| == |ps|
  {
    seq(|ps|, i requires 0 <= i < |ps| => EncodePair(ps[i]))
  }

  /** The string createURL returns. */
  function QueryString(params: Params): string
  {
    Join(EncodePairs(Kept(params)), '&')
  }

  /** createURL(params): collects "key=value" for every truthy value, then
      joins them with '&'. The test against '' in the source is kept, and adds
      nothing: an empty string is already falsy. */
  method CreateURL(params: Params) returns (query: string)
    ensures query == QueryString(params)
  {
    var str: seq<string> := [];
    for i := 0 to |params|
      invariant str == EncodePairs(Kept(params[..i]))
    {
      var (key, value) := params[i];
      if Truthy(value) && value != Str("") {
        str := str + [Encode(key) + "=" + Encode(ToString(value))];
      }
      KeptStep(params, i);
    }
    assert params[..|params|] == params;
    query := Join(str, '&');
  }

  /** One more property extends the encoded list by its pair when its value is
      truthy, and leaves it alone otherwise. */
  lemma KeptStep(params: Params, i: nat)
    requires i < |params|
    ensures EncodePairs(Kept(params[..i + 1]))
      == EncodePairs(Kept(params[..i]))
         + (if Truthy(params[i].1) then [EncodePair((params[i].0, ToString(params[i].1)))] else [])
  {
    assert params[..i + 1][..i] == params[..i];
    var (key, value) := params[i];
    EncodePairsAppend(Kept(params[..i]), if Truthy(value) then [(key, ToString(value))] else []);
  }

  lemma EncodePairsAppend(a: seq<(string, string)>, b: seq<(string, string)>)
    ensures EncodePairs(a + b) == EncodePairs(a) + EncodePairs(b)
  {
    var l, r := EncodePairs(a + b), EncodePairs(a) + EncodePairs(b);
    forall k | 0 <= k < |l|
      ensures l[k] == r[k]
    {
      if k < |a| {
        assert (a + b)[k] == a[k];
      } else {
        assert (a + b)[k] == b[k - |a|];
      }
    }
  }

  /** A pair is kept exactly when some property with a truthy value gives it
      its key and its String(value). */
  lemma {:induction false} KeptContents(params: Params)
    ensures forall p :: p in Kept(params) <==>
      exists i :: 0 <= i < |params| && Truthy(params[i].1) && p == (params[i].0, ToString(params[i].1))
    decreases |params|
  {
    if params != [] {
      var init := params[..|params| - 1];
      KeptContents(init);
      assert forall i :: 0 <= i < |init| ==> init[i] == params[i];
    }
  }

  lemma {:induction false} KeptEmpty(params: Params)
    ensures Kept(params) == [] <==> forall i :: 0 <= i < |params| ==> !Truthy(params[i].1)
    decreases |params|
  {
    if params != [] {
      var init := params[..|params| - 1];
      KeptEmpty(init);
      assert forall i :: 0 <= i < |init| ==> init[i] == params[i];
    }
  }

  /** An encoded pair holds exactly one '=', no '&' and no '?', and splits on
      '=' into its two encoded sides. */
  lemma EncodedPairShape(p: (string, string))
    ensures var e := EncodePair(p);
      && e != "" && '&' !in e && '?' !in e && Count(e, '=') == 1
      && Split(e, '=') == [Encode(p.0), Encode(p.1)]
  {
    var k, v := Encode(p.0), Encode(p.1);
    NotInEncode(p.0, '=');
    NotInEncode(p.1, '=');
    NotInEncode(p.0, '&');
    NotInEncode(p.1, '&');
    NotInEncode(p.0, '?');
    NotInEncode(p.1, '?');
    EncodedPairCount(k, v);
    EncodedPairSplit(k, v);
  }

  lemma EncodedPairSplit(k: string, v: string)
    requires '=' !in k && '=' !in v
    ensures Split(k + "=" + v, '=') == [k, v]
  {
    assert k + "=" + v == k + ['='] + v;
    SplitAtFirstSeparator(k, '=', v);
    SplitNoSeparator(v, '=');
  }

  lemma EncodedPairCount(k: string, v: string)
    requires '=' !in k && '=' !in v && '&' !in k && '&' !in v && '?' !in k && '?' !in v
    ensures var e := k + "=" + v;
      '&' !in e && '?' !in e && Count(e, '=') == 1 && e == k + ['='] + v
  {
  }

  /** createURL returns the empty string exactly when no property holds a
      truthy value; undefined, null, '', 0 and false are all dropped. */
  lemma QueryEmptyIff(params: Params)
    ensures QueryString(params) == "" <==> forall i :: 0 <= i < |params| ==> !Truthy(params[i].1)
  {
    var parts := EncodePairs(Kept(params));
    forall i | 0 <= i < |parts| ensures parts[i] != "" {
      EncodedPairShape(Kept(params)[i]);
    }
    JoinEmpty(parts, '&');
    KeptEmpty(params);
  }

  /** A non-empty query is the kept pairs joined by single '&': splitting on
      '&' gives them back, each holding exactly one '=', and there is one '&'
      fewer than there are pairs. */
  lemma QueryPieces(params: Params)
    requires QueryString(params) != ""
    ensures var pieces := Split(QueryString(params), '&');
      && pieces == EncodePairs(Kept(params))
      && |pieces| == |Kept(params)|
      && (forall i :: 0 <= i < |pieces| ==> pieces[i] != "" && Count(pieces[i], '=') == 1)
      && Count(QueryString(params), '&') == |Kept(params)| - 1
  {
    var parts := EncodePairs(Kept(params));
    assert |parts| >= 1;
    forall i | 0 <= i < |parts|
      ensures parts[i] != "" && '&' !in parts[i] && Count(parts[i], '=') == 1
    {
      EncodedPairShape(Kept(params)[i]);
    }
    SplitJoin(parts, '&');
    JoinCount(parts, '&');
  }

  /** Reading a query back: split on '&', split each piece on '=', decode
      both sides with decodeURIComponent. */
  function ParseQuery(q: string): Option<seq<(string, string)>>
  {
    if q == "" then Some([]) else ParsePairs(Split(q, '&'))
  }

  function ParsePairs(pieces: seq<string>): Option<seq<(string, string)>>
  {
    if pieces == [] then Some([])
    else
      match (ParsePair(pieces[0]), ParsePairs(pieces[1..]))
      case (Some(p), Some(ps)) => Some([p] + ps)
      case _ => None
  }

  function ParsePair(piece: string): Option<(string, string)>
  {
    var halves := Split(piece, '=');
    if |halves| != 2 then None
    else
      match (Decode(halves[0]), Decode(halves[1]))
      case (Some(k), Some(v)) => Some((k, v))
      case _ => None
  }

  lemma ParsePairEncoded(p: (string, string))
    ensures ParsePair(EncodePair(p)) == Some(p)
  {
    EncodedPairShape(p);
    DecodeEncode(p.0);
    DecodeEncode(p.1);
  }

  /** ParsePairs succeeds on pieces that each parse, and collects what they
      parse to in order. */
  lemma {:induction false} ParsePairsEach(pieces: seq<string>, ps: seq<(string, string)>)
    requires |pieces| == |ps|
    requires forall i :: 0 <= i < |pieces| ==> ParsePair(pieces[i]) == Some(ps[i])
    ensures ParsePairs(pieces) == Some(ps)
    decreases |pieces|
  {
    if pieces != [] {
      ParsePairsEach(pieces[1..], ps[1..]);
      assert [ps[0]] + ps[1..] == ps;
    }
  }

  lemma ParsePairsEncoded(ps: seq<(string, string)>)
    ensures ParsePairs(EncodePairs(ps)) == Some(ps)
  {
    var es := EncodePairs(ps);
    forall i | 0 <= i < |es| ensures ParsePair(es[i]) == Some(ps[i]) {
      ParsePairEncoded(ps[i]);
    }
    ParsePairsEach(es, ps);
  }

  /** Round trip: decoding the query gives back every kept key and String(value),
      in order. */
  lemma QueryRoundTrip(params: Params)
    ensures ParseQuery(QueryString(params)) == Some(Kept(params))
  {
    QueryEmptyIff(params);
    KeptEmpty(params);
    if QueryString(params) != "" {
      QueryPieces(params);
      ParsePairsEncoded(Kept(params));
    }
  }

  lemma {:induction false} KeptAppend(a: Params, b: Params)
    ensures Kept(a + b) == Kept(a) + Kept(b)
    decreases |b|
  {
    if b == [] {
      assert a + b == a;
    } else {
      var init := b[..|b| - 1];
      assert (a + b)[..|a + b| - 1] == a + init;
      KeptAppend(a, init);
    }
  }

  /** A property whose value is falsy contributes nothing to the query,
      wherever it stands. */
  lemma QueryIgnoresFalsy(before: Params, key: string, value: Value, after: Params)
    requires !Truthy(value)
    ensures QueryString(before + [(key, value)] + after) == QueryString(before + after)
  {
    KeptAppend(before + [(key, value)], after);
    KeptAppend(before, [(key, value)]);
    KeptAppend(before, after);
    assert [(key, value)][..0] == [];
    assert Kept([(key, value)]) == [];
    assert Kept(before + [(key, value)]) == Kept(before);
    assert Kept(before + [(key, value)] + after) == Kept(before + after);
  }

  /** So getAllCars asks for the same URL with page number 0 as with no page
      number at all. */
  lemma PageZeroIsDropped(keyword: Value, sortField: Value, orderType: Value)
    ensures RequestUrl(GetAllCars(Num(0), keyword, sortField, orderType))
         == RequestUrl(GetAllCars(Undefined, keyword, sortField, orderType))
  {
    var rest := [("keyword", keyword), ("order_by", sortField), ("sort_order", orderType)];
    assert ListQuery(Num(0), keyword, sortField, orderType) == [] + [("page", Num(0))] + rest;
    assert ListQuery(Undefined, keyword, sortField, orderType) == [] + [("page", Undefined)] + rest;
    QueryIgnoresFalsy([], "page", Num(0), rest);
    QueryIgnoresFalsy([], "page", Undefined, rest);
  }

  // ---------------------------------------------------------------------------
  // Endpoints

  datatype Verb = Get | Post | Put | Delete

  /** The exported request functions of cars-service.js with their arguments. */
  datatype Operation =
    | GetAllCars(pageNumber: Value, keyword: Value, sortField: Value, orderType: Value)
    | AddCar
    | EditCar(id: Value)
    | DeleteCar(id: Value)
    | GetCar(carId: Value)
    | GetMakes
    | GetMakeModels(makesId: Value)
    | GetBodyTypes

  function VerbOf(op: Operation): Verb
  {
    match op
    case AddCar => Post
    case EditCar(_) => Put
    case DeleteCar(_) => Delete
    case _ => Get
  }

  /** The object getAllCars hands to createURL. */
  function ListQuery(pageNumber: Value, keyword: Value, sortField: Value, orderType: Value): Params
  {
    [("page", pageNumber), ("keyword", keyword), ("order_by", sortField), ("sort_order", orderType)]
  }

  /** The list URL: '?' and the query only when the query is not empty. */
  function ListUrl(query: string): string
  {
    BaseUrl + "/api/cars" + (if query == "" then "" else "?" + query)
  }

  /** `${URL}/api/cars/${id}` */
  function CarUrl(id: string): string
  {
    BaseUrl + "/api/cars/" + id
  }

  /** The URL each request function opens; ids go through a template literal
      `${id}`, that is String(id), unescaped. */
  function RequestUrl(op: Operation): (u: string)
    ensures op.EditCar? || op.DeleteCar? || op.GetCar? ==>
      u == BaseUrl + "/api/cars/" + ToString(if op.GetCar? then op.carId else op.id)
    ensures op.GetMakeModels? ==>
      u == BaseUrl + "/api/dictionaries/makes/" + ToString(op.makesId) + "/models"
  {
    match op
    case GetAllCars(p, k, s, o) => ListUrl(QueryString(ListQuery(p, k, s, o)))
    case AddCar => BaseUrl + "/api/cars"
    case EditCar(id) => CarUrl(ToString(id))
    case DeleteCar(id) => CarUrl(ToString(id))
    case GetCar(id) => CarUrl(ToString(id))
    case GetMakes => BaseUrl + "/api/dictionaries/makes"
    case GetMakeModels(id) => BaseUrl + "/api/dictionaries/makes/" + ToString(id) + "/models"
    case GetBodyTypes => BaseUrl + "/api/dictionaries/body-types"
  }

  /** Every request goes to the fixed host, under /api/. */
  lemma RequestUrlOnApi(op: Operation)
    ensures var u := RequestUrl(op);
      |u| > |BaseUrl| + 5 && u[..|BaseUrl| + 5] == BaseUrl + "/api/"
  {
    var n := |BaseUrl| + 5;
    var path := match op
      case GetAllCars(_, _, _, _) => "/api/cars"
      case AddCar => "/api/cars"
      case EditCar(id) => "/api/cars/"
      case DeleteCar(id) => "/api/cars/"
      case GetCar(id) => "/api/cars/"
      case GetMakes => "/api/dictionaries/makes"
      case GetMakeModels(id) => "/api/dictionaries/makes/"
      case GetBodyTypes => "/api/dictionaries/body-types";
    var rest := match op
      case GetAllCars(p, k, s, o) =>
        var q := QueryString(ListQuery(p, k, s, o));
        if q == "" then "" else "?" + q
      case EditCar(id) => ToString(id)
      case DeleteCar(id) => ToString(id)
      case GetCar(id) => ToString(id)
      case GetMakeModels(id) => ToString(id) + "/models"
      case _ => "";
    assert path[..5] == "/api/";
    assert RequestUrl(op) == (BaseUrl + path) + rest;
    PrefixOfAppend(BaseUrl + path, rest, n);
    TakeAcross(BaseUrl, path, 5);
  }

  lemma PrefixOfAppend(a: string, b: string, n: nat)
    requires n <= |a|
    ensures (a + b)[..n] == a[..n]
  {
  }

  lemma TakeAcross(a: string, b: string, k: nat)
    requires k <= |b|
    ensures (a + b)[..|a| + k] == a + b[..k]
  {
  }

  /** getAllCars up to the point where it opens the request. */
  method GetAllCarsUrl(pageNumber: Value, keyword: Value, sortField: Value, orderType: Value)
    returns (url: string)
    ensures url == RequestUrl(GetAllCars(pageNumber, keyword, sortField, orderType))
  {
    var page := CreateURL(ListQuery(pageNumber, keyword, sortField, orderType));
    url := BaseUrl + "/api/cars" + (if page == "" then "" else "?" + page);
  }

  /** The list URL holds a '?' exactly when the query is not empty, never ends
      in a bare '?', always starts with the base and "/api/cars", and what
      follows the '?' is the query itself. */
  lemma ListUrlShape(params: Params)
    ensures var q := QueryString(params);
      var u := ListUrl(q);
      var path := BaseUrl + "/api/cars";
      && ('?' in u <==> q != "")
      && u[|u| - 1] != '?'
      && u[..|path|] == path
      && (q == "" ==> u == path)
      && (q != "" ==> u[|path|] == '?' && u[|path| + 1..] == q)
  {
    QueryHasNoQuestionMark(params);
    ListUrlOf(QueryString(params));
  }

  lemma QueryHasNoQuestionMark(params: Params)
    ensures '?' !in QueryString(params)
  {
    var parts := EncodePairs(Kept(params));
    forall i | 0 <= i < |parts| ensures '?' !in parts[i] {
      EncodedPairShape(Kept(params)[i]);
    }
    JoinAvoids(parts, '&', '?');
  }

  lemma ListUrlOf(q: string)
    requires '?' !in q
    ensures var u := ListUrl(q);
      var path := BaseUrl + "/api/cars";
      && ('?' in u <==> q != "")
      && u[|u| - 1] != '?'
      && u[..|path|] == path
      && (q == "" ==> u == path)
      && (q != "" ==> u[|path|] == '?' && u[|path| + 1..] == q)
  {
    var path := BaseUrl + "/api/cars";
    assert '?' !in path by {
      forall i | 0 <= i < |path| ensures path[i] != '?' {
      }
    }
    if q == "" {
      assert ListUrl(q) == path;
    } else {
      var u := ListUrl(q);
      assert u == path + ['?'] + q;
      assert u[|u| - 1] == q[|q| - 1];
    }
  }

  /** The path segments of a URL on this host: the part after the scheme and
      host, split on '/'. */
  function PathSegments(url: string): seq<string>
    requires |url| >= |BaseUrl|
  {
    Split(url[|BaseUrl|..], '/')
  }

  /** editCar, deleteCar and getCar put String(id) as the last path segment
      after /api/cars, on the fixed host, as long as the id itself holds no
      '/', '?' or '#' (the template does not escape it). */
  lemma CarIdSegment(op: Operation)
    requires op.EditCar? || op.DeleteCar? || op.GetCar?
    requires var id := ToString(if op.GetCar? then op.carId else op.id);
      '/' !in id && '?' !in id && '#' !in id
    ensures var id := ToString(if op.GetCar? then op.carId else op.id);
      var u := RequestUrl(op);
      && |u| >= |BaseUrl| && u[..|BaseUrl|] == BaseUrl
      && '?' !in u[|BaseUrl|..] && '#' !in u[|BaseUrl|..]
      && PathSegments(u) == ["", "api", "cars", id]
  {
    var id := ToString(if op.GetCar? then op.carId else op.id);
    assert RequestUrl(op) == CarUrl(id);
    CarUrlSegments(id);
  }

  lemma CarUrlSegments(id: string)
    requires '/' !in id && '?' !in id && '#' !in id
    ensures var u := CarUrl(id);
      && |u| >= |BaseUrl| && u[..|BaseUrl|] == BaseUrl
      && '?' !in u[|BaseUrl|..] && '#' !in u[|BaseUrl|..]
      && PathSegments(u) == ["", "api", "cars", id]
  {
    var tail := "/api/cars/" + id;
    assert CarUrl(id) == BaseUrl + tail;
    CarPathSegments(id);
  }

  /** getMakeModels puts String(makesId) between /api/dictionaries/makes and
      /models, under the same condition. */
  lemma ModelsIdSegment(makesId: Value)
    requires var id := ToString(makesId); '/' !in id && '?' !in id && '#' !in id
    ensures var u := RequestUrl(GetMakeModels(makesId));
      && |u| >= |BaseUrl| && u[..|BaseUrl|] == BaseUrl
      && '?' !in u[|BaseUrl|..] && '#' !in u[|BaseUrl|..]
      && PathSegments(u) == ["", "api", "dictionaries", "makes", ToString(makesId), "models"]
  {
    var id := ToString(makesId);
    var tail := "/api/dictionaries/makes/" + id + "/models";
    assert RequestUrl(GetMakeModels(makesId)) == BaseUrl + tail;
    ModelsPathSegments(id);
  }

  lemma CarPathSegments(id: string)
    requires '/' !in id && '?' !in id && '#' !in id
    ensures var tail := "/api/cars/" + id;
      '?' !in tail && '#' !in tail && Split(tail, '/') == ["", "api", "cars", id]
  {
    assert "/api/cars/" + id == "" + ['/'] + ("api" + ['/'] + ("cars" + ['/'] + id));
    SplitFour("", "api", "cars", id, '/');
    NoQueryOrFragment("/api/cars/");
  }

  lemma ModelsPathSegments(id: string)
    requires '/' !in id && '?' !in id && '#' !in id
    ensures var tail := "/api/dictionaries/makes/" + id + "/models";
      '?' !in tail && '#' !in tail
      && Split(tail, '/') == ["", "api", "dictionaries", "makes", id, "models"]
  {
    ModelsPathSplit(id);
    ModelsPathPlain(id);
  }

  lemma ModelsPathSplit(id: string)
    requires '/' !in id
    ensures Split("/api/dictionaries/makes/" + id + "/models", '/')
      == ["", "api", "dictionaries", "makes", id, "models"]
  {
    var prefix := "" + ['/'] + "api" + ['/'] + "dictionaries" + ['/'] + "makes" + ['/'];
    ModelsPathPieces();
    assert "/api/dictionaries/makes/" + id + "/models" == prefix + id + ['/'] + "models";
    SplitSix("", "api", "dictionaries", "makes", id, "models", '/');
  }

  /** The constant parts of the getMakeModels path, piece by piece. */
  lemma ModelsPathPieces()
    ensures "/api/dictionaries/makes/" == "" + ['/'] + "api" + ['/'] + "dictionaries" + ['/'] + "makes" + ['/']
    ensures "/models" == ['/'] + "models"
  {
  }

  lemma ModelsPathPlain(id: string)
    requires '?' !in id && '#' !in id
    ensures var tail := "/api/dictionaries/makes/" + id + "/models";
      '?' !in tail && '#' !in tail
  {
    NoQueryOrFragment("/api/dictionaries/makes/");
    NoQueryOrFragment("/models");
  }

  lemma NoQueryOrFragment(s: string)
    requires forall i :: 0 <= i < |s| ==> s[i] == '/' || 'a' <= s[i] <= 'z'
    ensures '?' !in s && '#' !in s
  {
  }

  /** An id holding a '/' is not one segment: the template splices it in as
      it is, so its pieces become path segments of their own. */
  lemma CarIdWithSlash(a: string, b: string)
    requires '/' !in a && '/' !in b && '?' !in a && '#' !in a
    ensures PathSegments(CarUrl(a + ['/'] + b)) == ["", "api", "cars", a, b]
  {
    var id := a + ['/'] + b;
    assert CarUrl(id)[|BaseUrl|..] == "/api/cars/" + id;
    assert "/api/cars/" + id == ("/api/cars/" + a) + ['/'] + b;
    CarPathSegments(a);
    SplitAtLastSeparator("/api/cars/" + a, '/', b);
  }

  /** getCar("../makes") requests a path of five segments, not the four of
      /api/cars/{id}. */
  lemma CarIdTraversal()
    ensures |PathSegments(RequestUrl(GetCar(Str("../makes"))))| == 5
  {
    assert "../makes" == ".." + ['/'] + "makes";
    CarIdWithSlash("..", "makes");
  }

  /** `${URL}/api/cars/${encodeURIComponent(id)}`: the id escaped. */
  function SafeCarUrl(id: string): string
  {
    CarUrl(Encode(id))
  }

  /** With the id escaped, every id is exactly one path segment, which
      decodes back to the id, and the URL has no query or fragment. */
  lemma SafeCarUrlSegments(id: string)
    ensures var u := SafeCarUrl(id);
      && |u| >= |BaseUrl| && u[..|BaseUrl|] == BaseUrl
      && '?' !in u[|BaseUrl|..] && '#' !in u[|BaseUrl|..]
      && PathSegments(u) == ["", "api", "cars", Encode(id)]
      && Decode(PathSegments(u)[3]) == Some(id)
  {
    NotInEncode(id, '/');
    NotInEncode(id, '?');
    NotInEncode(id, '#');
    CarUrlSegments(Encode(id));
    DecodeEncode(id);
  }

  /** `${URL}/api/dictionaries/makes/${encodeURIComponent(makes_id)}/models`. */
  function SafeModelsUrl(id: string): string
  {
    BaseUrl + "/api/dictionaries/makes/" + Encode(id) + "/models"
  }

  lemma Regroup(a: string, b: string, c: string, d: string)
    ensures a + b + c + d == a + (b + c + d)
  {
  }

  lemma SafeModelsUrlSegments(id: string)
    ensures var u := SafeModelsUrl(id);
      && |u| >= |BaseUrl| && u[..|BaseUrl|] == BaseUrl
      && '?' !in u[|BaseUrl|..] && '#' !in u[|BaseUrl|..]
      && PathSegments(u) == ["", "api", "dictionaries", "makes", Encode(id), "models"]
      && Decode(PathSegments(u)[4]) == Some(id)
  {
    var e := Encode(id);
    NotInEncode(id, '/');
    NotInEncode(id, '?');
    NotInEncode(id, '#');
    Regroup(BaseUrl, "/api/dictionaries/makes/", e, "/models");
    ModelsPathSegments(e);
    DecodeEncode(id);
  }

  // ---------------------------------------------------------------------------
  // Status check shared by every request

  /** How a request's promise settles: resolved with the raw response body, or
      rejected with the status. */
  datatype Outcome = Success(body: string) | Failure(status: int)

  /** The success code each request waits for: 204 No Content for DELETE
      (section 15.3.5 of RFC 9110), 200 OK for GET, POST and PUT (section 15.3.1). */
  function ExpectedStatus(op: Operation): (code: int)
    ensures code == (if VerbOf(op) == Delete then 204 else 200)
  {
    match op
    case DeleteCar(_) => 204
    case _ => 200
  }

  /** The handler installed as both onload and onerror. A network error leaves
      the status at 0, so it is rejected like any other unexpected status. */
  function Settle(op: Operation, status: int, response: string): (r: Outcome)
    ensures r == Success(response) <==> status == (if VerbOf(op) == Delete then 204 else 200)
    ensures status != ExpectedStatus(op) ==> r == Failure(status)
    ensures r.Success? ==> 200 <= status < 300
    ensures status == 0 ==> r == Failure(0)
  {
    if status == ExpectedStatus(op) then Success(response) else Failure(status)
  }

  // ---------------------------------------------------------------------------
  // Payload of addCar and editCar

  /** A value of the payload object: a parsed integer, NaN, or sanitised text. */
  datatype Field = Int(n: int) | NaN | Text(s: string)

  /** What one form entry becomes: 'description' through checkXSS, every other
      key through parseInt. */
  function Coerce(key: string, value: string, checkXss: string -> string): (f: Field)
    ensures f.Text? <==> key == "description"
    ensures f.Text? ==> f.s == checkXss(value)
    ensures f.NaN? <==> key != "description" && ParseInt(value).None?
    ensures f.Int? ==> ParseInt(value) == Some(f.n)
  {
    if key != "description" then
      match ParseInt(value)
      case Some(n) => Int(n)
      case None => NaN
    else Text(checkXss(value))
  }

  /** Each form entry paired with what it becomes. */
  function Coerced(entries: seq<(string, string)>, checkXss: string -> string): (r: seq<(string, Field)>)
    ensures |r| == |entries|
  {
    seq(|entries|, i requires 0 <= i < |entries| => (entries[i].0, Coerce(entries[i].0, entries[i].1, checkXss)))
  }

  /** `object[key] = value` on an object created by `{}`, for a value that is
      a number or a string. The key "__proto__" reaches the setter inherited
      from Object.prototype, which ignores such a value, so no own property
      is created; every other key gets the value. */
  function Store<V>(obj: map<string, V>, key: string, value: V): map<string, V>
  {
    if key == "__proto__" then obj else obj[key := value]
  }

  /** An object after `object[key] = value` has been run for every pair in
      order. */
  function Assign<V>(pairs: seq<(string, V)>): map<string, V>
  {
    if pairs == [] then map[]
    else Store(Assign(pairs[..|pairs| - 1]), pairs[|pairs| - 1].0, pairs[|pairs| - 1].1)
  }

  /** The payload object addCar and editCar serialise. */
  function Payload(entries: seq<(string, string)>, checkXss: string -> string): map<string, Field>
  {
    Assign(Coerced(entries, checkXss))
  }

  /** The loop of addCar and editCar that fills the payload object from
      formData.forEach. */
  method CoercePayload(formData: seq<(string, string)>, checkXss: string -> string)
    returns (payload: map<string, Field>)
    ensures payload == Payload(formData, checkXss)
  {
    payload := map[];
    for i := 0 to |formData|
      invariant payload == Assign(Coerced(formData[..i], checkXss))
    {
      var (key, value) := formData[i];
      if key != "description" {
        var parsed := ParseInt(value);
        payload := Store(payload, key, if parsed.Some? then Int(parsed.value) else NaN);
      } else {
        payload := Store(payload, key, Text(checkXss(value)));
      }
      PayloadStep(formData, checkXss, i);
    }
    assert formData[..|formData|] == formData;
  }

  /** One more entry stores its coerced value over the payload so far. */
  lemma PayloadStep(formData: seq<(string, string)>, checkXss: string -> string, i: nat)
    requires i < |formData|
    ensures Assign(Coerced(formData[..i + 1], checkXss))
      == Store(Assign(Coerced(formData[..i], checkXss)), formData[i].0,
               Coerce(formData[i].0, formData[i].1, checkXss))
  {
    assert Coerced(formData[..i + 1], checkXss)[..i] == Coerced(formData[..i], checkXss);
  }

  /** The own keys of an object filled this way are exactly the keys written,
      except "__proto__". */
  lemma {:induction false} AssignKeys<V>(pairs: seq<(string, V)>)
    ensures forall key :: key in Assign(pairs) <==>
      key != "__proto__" && exists i :: 0 <= i < |pairs| && pairs[i].0 == key
    decreases |pairs|
  {
    if pairs != [] {
      var init := pairs[..|pairs| - 1];
      AssignKeys(init);
      assert forall i :: 0 <= i < |init| ==> init[i] == pairs[i];
      var last := pairs[|pairs| - 1];
      forall key | key in Assign(pairs)
        ensures key != "__proto__" && exists i :: 0 <= i < |pairs| && pairs[i].0 == key
      {
        if key != last.0 || last.0 == "__proto__" {
          assert key in Assign(init);
          var i :| 0 <= i < |init| && init[i].0 == key;
          assert pairs[i].0 == key;
        }
      }
    }
  }

  /** A key other than "__proto__" holds the value of its last write. */
  lemma {:induction false} AssignLastWins<V>(pairs: seq<(string, V)>, i: nat)
    requires i < |pairs|
    requires forall j :: i < j < |pairs| ==> pairs[j].0 != pairs[i].0
    ensures pairs[i].0 != "__proto__" ==>
      pairs[i].0 in Assign(pairs) && Assign(pairs)[pairs[i].0] == pairs[i].1
    decreases |pairs|
  {
    if i < |pairs| - 1 {
      var init := pairs[..|pairs| - 1];
      assert forall j :: i < j < |init| ==> init[j] == pairs[j];
      AssignLastWins(init, i);
    }
  }

  /** The payload has exactly the keys of the form, except "__proto__", which
      never becomes an own property. */
  lemma PayloadKeys(entries: seq<(string, string)>, checkXss: string -> string)
    ensures forall key :: key in Payload(entries, checkXss) <==>
      key != "__proto__" && exists i :: 0 <= i < |entries| && entries[i].0 == key
  {
    var pairs := Coerced(entries, checkXss);
    AssignKeys(pairs);
    assert forall i :: 0 <= i < |entries| ==> pairs[i].0 == entries[i].0;
  }

  /** When a key repeats, the last entry wins: the key maps to its last value,
      through checkXSS for 'description', through parseInt otherwise; an entry
      named "__proto__" leaves no property. */
  lemma PayloadLastWins(entries: seq<(string, string)>, checkXss: string -> string, i: nat)
    requires i < |entries|
    requires forall j :: i < j < |entries| ==> entries[j].0 != entries[i].0
    ensures var (key, value) := entries[i];
      if key == "__proto__" then key !in Payload(entries, checkXss)
      else
        && key in Payload(entries, checkXss)
        && Payload(entries, checkXss)[key]
           == (if key == "description" then Text(checkXss(value))
               else if ParseInt(value).Some? then Int(ParseInt(value).value) else NaN)
  {
    var pairs := Coerced(entries, checkXss);
    assert forall j :: 0 <= j < |entries| ==> pairs[j].0 == entries[j].0;
    AssignLastWins(pairs, i);
    PayloadKeys(entries, checkXss);
  }
}
