/** The lazily parsed parameters of a request: its query, its form body and its cookies, each at most once. */
module HttpRequests {
  import opened Bytes
  import opened Options
  import opened Urls
  import opened Params

  const QUERY_PARSED: bv8 := 0x1
  const BODY_PARSED: bv8 := 0x2
  const COOKIES_PARSED: bv8 := 0x4

  class HttpRequest {
    const query: Text
    const body: Text
    const cookie: Text
    /** Whether the content type names the form encoding. */
    const isForm: bool
    var params: ParamMap
    var cookies: ParamMap
    var parserParamFlag: bv8

    constructor (query: Text, body: Text, cookie: Text, isForm: bool)
      ensures this.query == query && this.body == body && this.cookie == cookie && this.isForm == isForm
      ensures params == map[] && cookies == map[] && parserParamFlag == 0 && Lazy()
    {
      this.query, this.body, this.cookie, this.isForm := query, body, cookie, isForm;
      params, cookies, parserParamFlag := map[], map[], 0;
    }

    ghost function QueryParams(): ParamMap {
      Parse(query, AMPERSAND, false, map[])
    }

    /** What both lists give: the body adds to the query. */
    ghost function AllParams(): ParamMap {
      if isForm then Parse(body, AMPERSAND, false, QueryParams()) else QueryParams()
    }

    ghost function AllCookies(): ParamMap {
      Parse(cookie, SEMICOLON, true, map[])
    }

    /** The maps hold what the flags say has been parsed, the query before the body. */
    ghost predicate Lazy()
      reads this
    {
      && (parserParamFlag & BODY_PARSED != 0 ==> parserParamFlag & QUERY_PARSED != 0)
      && params == (if parserParamFlag & BODY_PARSED != 0 then AllParams()
                    else if parserParamFlag & QUERY_PARSED != 0 then QueryParams() else map[])
      && cookies == (if parserParamFlag & COOKIES_PARSED != 0 then AllCookies() else map[])
    }

    /** Parsing a second time changes nothing. */
    method InitQueryParam()
      modifies this
      ensures parserParamFlag == old(parserParamFlag) | QUERY_PARSED && cookies == old(cookies)
      ensures params == if old(parserParamFlag) & QUERY_PARSED != 0 then old(params)
                        else Parse(query, AMPERSAND, false, old(params))
    {
      if parserParamFlag & QUERY_PARSED != 0 {
        return;
      }
      params := ParseParam(query, AMPERSAND, false, params);
      parserParamFlag := parserParamFlag | QUERY_PARSED;
    }

    method InitBodyParam()
      modifies this
      ensures parserParamFlag == old(parserParamFlag) | BODY_PARSED && cookies == old(cookies)
      ensures params == if old(parserParamFlag) & BODY_PARSED != 0 || !isForm then old(params)
                        else Parse(body, AMPERSAND, false, old(params))
    {
      if parserParamFlag & BODY_PARSED != 0 {
        return;
      }
      if !isForm {
        parserParamFlag := parserParamFlag | BODY_PARSED;
        return;
      }
      params := ParseParam(body, AMPERSAND, false, params);
      parserParamFlag := parserParamFlag | BODY_PARSED;
    }

    method InitCookies()
      modifies this
      ensures parserParamFlag == old(parserParamFlag) | COOKIES_PARSED && params == old(params)
      ensures cookies == if old(parserParamFlag) & COOKIES_PARSED != 0 then old(cookies)
                         else Parse(cookie, SEMICOLON, true, old(cookies))
    {
      if parserParamFlag & COOKIES_PARSED != 0 {
        return;
      }
      if cookie == [] {
        parserParamFlag := parserParamFlag | COOKIES_PARSED;
        return;
      }
      cookies := ParseParam(cookie, SEMICOLON, true, cookies);
      parserParamFlag := parserParamFlag | COOKIES_PARSED;
    }

    /** The lookup parses first; whatever was looked up before, it sees the query and then the body. */
    method HasParam(key: Text) returns (value: Option<Text>)
      requires Lazy()
      modifies this
      ensures Lazy() && params == AllParams()
      ensures value == if Canon(key) in AllParams() then Some(AllParams()[Canon(key)].value) else None
    {
      InitQueryParam();
      InitBodyParam();
      value := if Canon(key) in params then Some(params[Canon(key)].value) else None;
    }

    method HasCookie(key: Text) returns (value: Option<Text>)
      requires Lazy()
      modifies this
      ensures Lazy() && params == old(params)
      ensures value == if Canon(key) in AllCookies() then Some(AllCookies()[Canon(key)].value) else None
    {
      InitCookies();
      value := if Canon(key) in cookies then Some(cookies[Canon(key)].value) else None;
    }
  }

  /** A key in the query keeps its query value however the body goes on. */
  lemma QueryBeforeBody(r: HttpRequest, queries: seq<Param>, bodies: seq<Param>, spaceAsPlus: bool, canon: Text)
    requires KeysFit(queries) && KeysFit(bodies) && r.isForm
    requires r.query == Print(queries, AMPERSAND, spaceAsPlus) && r.body == Print(bodies, AMPERSAND, spaceAsPlus)
    ensures var q, b := FirstWith(queries, canon), FirstWith(bodies, canon);
      && (canon in r.AllParams() <==> q < |queries| || b < |bodies|)
      && (canon in r.AllParams() ==> r.AllParams()[canon] == if q < |queries| then queries[q] else bodies[b])
  {
    ParsePrint(queries, AMPERSAND, spaceAsPlus, false, map[]);
    ParsePrint(bodies, AMPERSAND, spaceAsPlus, false, r.QueryParams());
    assert Trimmed(queries, false) == queries && Trimmed(bodies, false) == bodies;
    FirstWins(map[], queries, canon);
    FirstWins(r.QueryParams(), bodies, canon);
  }

  /** A cookie is found by its bare name, in any case, whatever blanks come before and after it in the header. */
  lemma CookieIsFound(r: HttpRequest, params: seq<Param>, padded: seq<Param>, spaceAsPlus: bool, key: Text)
    requires KeysFit(params) && Padded(padded, params) && forall i :: 0 <= i < |params| ==> Bare(params[i].key)
    requires r.cookie == Print(padded, ';' as Byte, spaceAsPlus)
    ensures var i := FirstWith(params, Canon(key));
      && (Canon(key) in r.AllCookies() <==> i < |params|)
      && (i < |params| ==> r.AllCookies()[Canon(key)] == params[i])
  {
    ParsePadded(params, padded, SEMICOLON, spaceAsPlus);
    FirstWins(map[], params, Canon(key));
  }
}
