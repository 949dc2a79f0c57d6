/**
 * The OAuth2 client object: three endpoint/identity fields set once by
 * the constructor, `authorize`, which builds the authorization URL and
 * either returns it or emits a `Location` header, and the parameter set
 * `accessToken` posts to the access endpoint.
 */
module OAuthClient {
  import opened PhpStrings
  import opened PhpArrays
  import opened UrlEncoding
  import opened QueryStrings

  const ResponseTypeKey: PhpString := "response_type"
  const ClientIdKey: PhpString := "client_id"
  const GrantTypeKey: PhpString := "grant_type"
  const CodeKey: PhpString := "code"
  /** The fixed value of response_type. */
  const CodeValue: PhpString := "code"
  /** The fixed value of grant_type. */
  const AuthorizationCode: PhpString := "authorization_code"

  /** authorize's fixed parameters, in their order. */
  function AuthorizeDefaults(clientId: PhpString): Pairs {
    [(ResponseTypeKey, CodeValue), (ClientIdKey, clientId)]
  }

  /** accessToken's fixed parameters, in their order. */
  function TokenDefaults(code: PhpString): Pairs {
    [(GrantTypeKey, AuthorizationCode), (CodeKey, code)]
  }

  /** `array_merge` of two fixed parameters with the caller's, as both operations do. */
  function MergeTwo(k0: PhpString, v0: PhpString, k1: PhpString, v1: PhpString, optionalParams: Pairs): Pairs {
    ArrayMerge([(k0, v0), (k1, v1)], optionalParams)
  }

  /**
   * The result of merging two distinct fixed keys with the caller's
   * parameters: each fixed key keeps its place and takes the caller's
   * value if there is one; the caller's other parameters follow in order.
   */
  lemma MergeTwoLayout(k0: PhpString, v0: PhpString, k1: PhpString, v1: PhpString, optionalParams: Pairs)
    requires k0 != k1 && !IsIntegerKey(k0) && !IsIntegerKey(k1) && IsArray(optionalParams)
    ensures var params := MergeTwo(k0, v0, k1, v1, optionalParams);
      && IsArray(params) && |params| >= 2
      && params[0] == (k0, GetOr(optionalParams, k0, v0))
      && params[1] == (k1, GetOr(optionalParams, k1, v1))
      && params[2..] == Additions([k0, k1], optionalParams)
      && (forall k :: k in Keys(params) <==> k == k0 || k == k1 || k in Keys(optionalParams))
  {
    var d: Pairs := [(k0, v0), (k1, v1)];
    assert Keys(d) == [k0, k1];
    MergeKeys(d, optionalParams);
    MergeOrder(d, optionalParams);
    ArrayMergeIsMergeSpec(d, optionalParams);
  }

  /** With none of the fixed keys overridden, the merge is the defaults followed by the caller's parameters. */
  lemma {:induction false} AdditionsOfFresh(ks: seq<PhpString>, b: Pairs)
    requires forall k :: k in ks ==> k !in Keys(b)
    ensures Additions(ks, b) == b
  {
    if b != [] {
      KeysCons(b);
      AdditionsOfFresh(ks, b[1..]);
    }
  }

  /** The fixed keys of both operations are string keys. */
  lemma FixedKeysAreStrings()
    ensures !IsIntegerKey(ResponseTypeKey) && !IsIntegerKey(ClientIdKey)
    ensures !IsIntegerKey(GrantTypeKey) && !IsIntegerKey(CodeKey)
  {
    assert ResponseTypeKey[0] == 'r' && ClientIdKey[0] == 'c';
    assert GrantTypeKey[0] == 'g' && CodeKey[0] == 'c';
  }

  /** authorize's parameters: array_merge of its fixed pair with the caller's array. */
  function AuthorizeParams(clientId: PhpString, optionalParams: Pairs): Pairs {
    MergeTwo(ResponseTypeKey, CodeValue, ClientIdKey, clientId, optionalParams)
  }

  /** accessToken's parameters: array_merge of its fixed pair with the caller's array. */
  function TokenParams(code: PhpString, optionalParams: Pairs): Pairs {
    MergeTwo(GrantTypeKey, AuthorizationCode, CodeKey, code, optionalParams)
  }

  /**
   * response_type and client_id lead, in that order, each with the
   * caller's value if the caller gives one; the caller's other parameters
   * follow in the caller's order; every key occurs once.
   */
  lemma AuthorizeParamsLayout(clientId: PhpString, optionalParams: Pairs)
    requires IsArray(optionalParams)
    ensures var params := AuthorizeParams(clientId, optionalParams);
      && IsArray(params) && |params| >= 2
      && params[0] == (ResponseTypeKey, GetOr(optionalParams, ResponseTypeKey, CodeValue))
      && params[1] == (ClientIdKey, GetOr(optionalParams, ClientIdKey, clientId))
      && params[2..] == Additions([ResponseTypeKey, ClientIdKey], optionalParams)
      && (forall k :: k in Keys(params) <==> k == ResponseTypeKey || k == ClientIdKey || k in Keys(optionalParams))
  {
    FixedKeysAreStrings();
    MergeTwoLayout(ResponseTypeKey, CodeValue, ClientIdKey, clientId, optionalParams);
  }

  /**
   * grant_type and code lead, in that order, each with the caller's value
   * if the caller gives one; the caller's other parameters follow in the
   * caller's order; every key occurs once.
   */
  lemma TokenParamsLayout(code: PhpString, optionalParams: Pairs)
    requires IsArray(optionalParams)
    ensures var params := TokenParams(code, optionalParams);
      && IsArray(params) && |params| >= 2
      && params[0] == (GrantTypeKey, GetOr(optionalParams, GrantTypeKey, AuthorizationCode))
      && params[1] == (CodeKey, GetOr(optionalParams, CodeKey, code))
      && params[2..] == Additions([GrantTypeKey, CodeKey], optionalParams)
      && (forall k :: k in Keys(params) <==> k == GrantTypeKey || k == CodeKey || k in Keys(optionalParams))
  {
    FixedKeysAreStrings();
    MergeTwoLayout(GrantTypeKey, AuthorizationCode, CodeKey, code, optionalParams);
  }

  /** When the caller sets neither response_type nor client_id, the defaults lead, in order. */
  lemma AuthorizeDefaultsLead(clientId: PhpString, optionalParams: Pairs)
    requires IsArray(optionalParams)
    requires ResponseTypeKey !in Keys(optionalParams) && ClientIdKey !in Keys(optionalParams)
    ensures AuthorizeParams(clientId, optionalParams) == AuthorizeDefaults(clientId) + optionalParams
  {
    var params := AuthorizeParams(clientId, optionalParams);
    AuthorizeParamsLayout(clientId, optionalParams);
    AdditionsOfFresh([ResponseTypeKey, ClientIdKey], optionalParams);
    assert params == params[..2] + params[2..];
  }

  /** When the caller sets neither grant_type nor code, the defaults lead, in order. */
  lemma TokenDefaultsLead(code: PhpString, optionalParams: Pairs)
    requires IsArray(optionalParams)
    requires GrantTypeKey !in Keys(optionalParams) && CodeKey !in Keys(optionalParams)
    ensures TokenParams(code, optionalParams) == TokenDefaults(code) + optionalParams
  {
    var params := TokenParams(code, optionalParams);
    TokenParamsLayout(code, optionalParams);
    AdditionsOfFresh([GrantTypeKey, CodeKey], optionalParams);
    assert params == params[..2] + params[2..];
  }

  /** The authorization URL: the endpoint, `?`, then one `key=urlencode(value)&` per parameter. */
  function AuthorizeUri(authorizeEndpoint: PhpString, clientId: PhpString, optionalParams: Pairs): PhpString
  {
    authorizeEndpoint + QueryString(AuthorizeParams(clientId, optionalParams))
  }

  /** The URL is the endpoint, then `?`, then the segments, and it ends with `&`. */
  lemma AuthorizeUriShape(authorizeEndpoint: PhpString, clientId: PhpString, optionalParams: Pairs)
    requires IsArray(optionalParams)
    ensures var uri := AuthorizeUri(authorizeEndpoint, clientId, optionalParams);
      && |uri| > |authorizeEndpoint| + 1
      && uri[..|authorizeEndpoint| + 1] == authorizeEndpoint + "?"
      && uri[|authorizeEndpoint| + 1..] == QueryBody(AuthorizeParams(clientId, optionalParams))
      && uri[|uri| - 1] == '&'
  {
    var params := AuthorizeParams(clientId, optionalParams);
    assert params != [] by {
      AuthorizeParamsLayout(clientId, optionalParams);
    }
    var body := QueryBody(params);
    var uri := AuthorizeUri(authorizeEndpoint, clientId, optionalParams);
    QueryBodyEndsWithSeparator(params);
    assert uri == (authorizeEndpoint + "?") + body;
  }

  lemma FixedKeysPlain()
    ensures IsPlainKey(ResponseTypeKey) && IsPlainKey(ClientIdKey)
  {
  }

  /** Every key of authorize's parameters is plain when every key the caller adds is. */
  lemma AuthorizeKeysPlain(clientId: PhpString, optionalParams: Pairs)
    requires IsArray(optionalParams)
    requires forall i :: 0 <= i < |optionalParams| ==> IsPlainKey(optionalParams[i].0)
    ensures var params := AuthorizeParams(clientId, optionalParams);
      forall i :: 0 <= i < |params| ==> IsPlainKey(params[i].0)
  {
    var params := AuthorizeParams(clientId, optionalParams);
    AuthorizeParamsLayout(clientId, optionalParams);
    FixedKeysPlain();
    forall i | 2 <= i < |params| ensures IsPlainKey(params[i].0) {
      assert params[i] in Additions([ResponseTypeKey, ClientIdKey], optionalParams) by {
        assert params[2..][i - 2] == params[i];
      }
      var j :| 0 <= j < |optionalParams| && optionalParams[j] == params[i];
    }
  }

  /** The query reads back as the merged parameters when every key the caller adds is plain. */
  lemma AuthorizeQueryRoundTrip(clientId: PhpString, optionalParams: Pairs)
    requires IsArray(optionalParams)
    requires forall i :: 0 <= i < |optionalParams| ==> IsPlainKey(optionalParams[i].0)
    ensures FormDecode(QueryBody(AuthorizeParams(clientId, optionalParams))) == AuthorizeParams(clientId, optionalParams)
  {
    AuthorizeKeysPlain(clientId, optionalParams);
    QueryBodyRoundTrip(AuthorizeParams(clientId, optionalParams));
  }

  /** response_type's segment spelled out: its value needs no encoding. */
  lemma ResponseTypeField()
    ensures Field(ResponseTypeKey, CodeValue) == "response_type=code&"
  {
    EncodeIdentity(CodeValue);
  }

  /**
   * With neither default key overridden, the URL is the endpoint, `?`,
   * `response_type=code&`, the client_id segment, then the caller's
   * segments in the caller's order.
   */
  lemma DefaultAuthorizeUri(authorizeEndpoint: PhpString, clientId: PhpString, optionalParams: Pairs)
    requires IsArray(optionalParams)
    requires ResponseTypeKey !in Keys(optionalParams) && ClientIdKey !in Keys(optionalParams)
    ensures AuthorizeUri(authorizeEndpoint, clientId, optionalParams)
      == authorizeEndpoint + ("?" + ("response_type=code&" + (Field(ClientIdKey, clientId) + QueryBody(optionalParams))))
  {
    ResponseTypeField();
    AuthorizeDefaultsLead(clientId, optionalParams);
    var d := AuthorizeDefaults(clientId);
    QueryBodyAt(d + optionalParams, 0);
    QueryBodyAt(d + optionalParams, 1);
    assert (d + optionalParams)[2..] == optionalParams;
  }

  /** The header line authorize emits in redirect mode starts with this. */
  const LocationHeader: PhpString := "Location: "

  /** What accessToken hands to the transport: a POST of these fields to this URL. */
  datatype PostRequest = PostRequest(url: PhpString, fields: Pairs)

  class OAuth {
    const clientId: PhpString
    const authorizeEndpoint: PhpString
    const accessEndpoint: PhpString

    constructor (clientId: PhpString, authorizeEndpoint: PhpString, accessEndpoint: PhpString)
      ensures this.clientId == clientId
      ensures this.authorizeEndpoint == authorizeEndpoint
      ensures this.accessEndpoint == accessEndpoint
    {
      this.clientId := clientId;
      this.authorizeEndpoint := authorizeEndpoint;
      this.accessEndpoint := accessEndpoint;
    }

    /**
     * Builds the authorization URL. With redirect set, nothing is returned
     * and the header line `Location: <url>` is emitted instead; otherwise
     * the URL is returned and no header is emitted.
     */
    method Authorize(redirect: bool, optionalParams: Pairs) returns (uri: Option<PhpString>, header: Option<PhpString>)
      requires IsArray(optionalParams)
      ensures redirect ==> uri == None && header == Some(LocationHeader + AuthorizeUri(authorizeEndpoint, clientId, optionalParams))
      ensures !redirect ==> uri == Some(AuthorizeUri(authorizeEndpoint, clientId, optionalParams)) && header == None
    {
      var params := AuthorizeParams(clientId, optionalParams);
      var paramsString: PhpString := "?";
      var i := 0;
      while i < |params|
        invariant 0 <= i <= |params|
        invariant paramsString == QueryString(params[..i])
      {
        var key, param := params[i].0, params[i].1;
        QueryStringSnoc(params[..i], key, param);
        assert params[..i + 1] == params[..i] + [(key, param)];
        paramsString := paramsString + (key + "=" + UrlEncode(param) + "&");
        i := i + 1;
      }
      assert params[..i] == params;
      var authorizeUri := authorizeEndpoint + paramsString;
      if redirect {
        uri, header := None, Some(LocationHeader + authorizeUri);
      } else {
        uri, header := Some(authorizeUri), None;
      }
    }

    /**
     * Builds the access-token request: the code and grant type merged with
     * the caller's parameters, posted to the access endpoint. The source
     * method returns nothing.
     */
    method AccessToken(code: PhpString, optionalParams: Pairs) returns (sent: PostRequest)
      requires IsArray(optionalParams)
      ensures sent.url == accessEndpoint
      ensures sent.fields == TokenParams(code, optionalParams)
      ensures Get(sent.fields, GrantTypeKey) == Some(GetOr(optionalParams, GrantTypeKey, AuthorizationCode))
      ensures Get(sent.fields, CodeKey) == Some(GetOr(optionalParams, CodeKey, code))
      ensures forall k :: k in Keys(optionalParams) ==> Get(sent.fields, k) == Get(optionalParams, k)
    {
      var params := TokenParams(code, optionalParams);
      TokenParamsLayout(code, optionalParams);
      forall k | k in Keys(optionalParams) ensures Get(params, k) == Get(optionalParams, k) {
        MergeGet(TokenDefaults(code), optionalParams, k);
      }
      GetAt(params, 0);
      GetAt(params, 1);
      sent := PostRequest(accessEndpoint, params);
    }
  }
}
