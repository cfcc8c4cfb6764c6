/**
 * The string building of `TwitterClient`: the OAuth 1.0a signature base
 * string and signing key of `oauth_sign` (sections 3.4.1 and 3.4.2 of
 * RFC 5849), the `Authorization: OAuth ...` header of `tweet` (section
 * 3.5.1) and the form body. HMAC-SHA1 followed by base64 is not modelled:
 * it is a parameter `sign` taking the key bytes and the message bytes.
 * The class attributes the methods read through `self` (base URL,
 * timestamp, nonce, signature method, version) are fields of the client:
 * the timestamp and nonce come from the clock and the random source, which
 * are outside the model, and `NewClient` fixes the other three to the
 * values the class defines.
 */
module OAuth {
  import opened Wrappers
  import opened Text
  import Ordering
  import Utf8
  import Percent

  const HttpProtocol := "https"
  const HttpHost := "api.twitter.com"
  const HttpResource := "/1.1/statuses/update.json"
  const BaseUrl := HttpProtocol + "://" + HttpHost + HttpResource
  const SignatureMethod := "HMAC-SHA1"
  const Version := "1.0"

  /** A `TwitterClient`: the four credentials given to `__init__` and the
      class attributes its methods read. */
  datatype Client = Client(
    consumerKey: string,
    consumerSecret: string,
    accessToken: string,
    accessTokenSecret: string,
    baseUrl: string,
    timestamp: string,
    nonce: string,
    signatureMethod: string,
    version: string)

  /** `TwitterClient(consumer_key, consumer_secret, access_token,
      access_token_secret)`, at the given class-level timestamp and nonce. */
  function NewClient(consumerKey: string, consumerSecret: string, accessToken: string,
                     accessTokenSecret: string, timestamp: string, nonce: string): (c: Client)
    ensures c.baseUrl == "https://" + "api.twitter.com" + "/1.1/statuses/update.json"
    ensures c.signatureMethod == "HMAC-SHA1" && c.version == "1.0"
    ensures c.consumerKey == consumerKey && c.consumerSecret == consumerSecret
    ensures c.accessToken == accessToken && c.accessTokenSecret == accessTokenSecret
    ensures c.timestamp == timestamp && c.nonce == nonce
  {
    Client(consumerKey, consumerSecret, accessToken, accessTokenSecret,
           BaseUrl, timestamp, nonce, SignatureMethod, Version)
  }

  /** HMAC-SHA1 keyed with the first argument over the second, in base64. */
  type Signer = (seq<Utf8.byte>, seq<Utf8.byte>) -> string

  /** The keys of `signature_parameters`, in the order the dictionary lists them. */
  const SignatureNames: seq<string> := [
    "status", "oauth_consumer_key", "oauth_nonce", "oauth_signature_method",
    "oauth_timestamp", "oauth_token", "oauth_version"
  ]

  /** The same keys in code-point order. */
  const SignatureOrder: seq<string> := [
    "oauth_consumer_key", "oauth_nonce", "oauth_signature_method",
    "oauth_timestamp", "oauth_token", "oauth_version", "status"
  ]

  /** The keys of `authorization_params`, in the order the dictionary lists them. */
  const AuthorizationNames: seq<string> := [
    "oauth_consumer_key", "oauth_nonce", "oauth_signature", "oauth_signature_method",
    "oauth_timestamp", "oauth_token", "oauth_version"
  ]

  /** `signature_parameters`. */
  function SignatureParameters(c: Client, message: string): map<string, string>
  {
    map[
      "oauth_consumer_key" := c.consumerKey,
      "oauth_nonce" := c.nonce,
      "oauth_signature_method" := c.signatureMethod,
      "oauth_timestamp" := c.timestamp,
      "oauth_token" := c.accessToken,
      "oauth_version" := c.version,
      "status" := message]
  }

  /** `authorization_params`, given the signature. */
  function AuthorizationParameters(c: Client, signature: string): map<string, string>
  {
    map[
      "oauth_consumer_key" := c.consumerKey,
      "oauth_nonce" := c.nonce,
      "oauth_signature" := signature,
      "oauth_signature_method" := c.signatureMethod,
      "oauth_timestamp" := c.timestamp,
      "oauth_token" := c.accessToken,
      "oauth_version" := c.version]
  }

  /** `f"{p}={encode(v)}"`. */
  function Pair(name: string, value: string): string
  {
    name + "=" + Percent.Encode(value)
  }

  /** `f'{p}="{encode(v)}"'`. */
  function QuotedPair(name: string, value: string): string
  {
    name + "=\"" + Percent.Encode(value) + "\""
  }

  /** One entry of either comprehension. */
  function Entry(name: string, value: string, quoted: bool): string
  {
    if quoted then QuotedPair(name, value) else Pair(name, value)
  }

  /** The comprehension over `sorted(params.keys())`, writing each entry
      quoted or not; `names` lists the keys of `params`. */
  function SortedPairs(params: map<string, string>, names: seq<string>, quoted: bool): seq<string>
    requires forall n :: n in names <==> n in params
  {
    var sorted := Ordering.Sort(names);
    assert forall k :: 0 <= k < |sorted| ==> sorted[k] in multiset(names);
    seq(|sorted|, k requires 0 <= k < |sorted| => Entry(sorted[k], params[sorted[k]], quoted))
  }

  /** `param_string`. */
  function ParamString(c: Client, message: string): string
  {
    Join("&", SortedPairs(SignatureParameters(c, message), SignatureNames, false))
  }

  /** `signature_base_string`, before its UTF-8 encoding. */
  function SignatureBaseString(c: Client, message: string): string
  {
    Join("&", ["POST", Percent.Encode(c.baseUrl), Percent.Encode(ParamString(c, message))])
  }

  /** `signing_key`, before its UTF-8 encoding. */
  function SigningKey(c: Client): string
  {
    Join("&", [Percent.Encode(c.consumerSecret), Percent.Encode(c.accessTokenSecret)])
  }

  /** `oauth_sign`. */
  function OAuthSign(c: Client, message: string, sign: Signer): string
  {
    sign(Utf8.Encode(SigningKey(c)), Utf8.Encode(SignatureBaseString(c, message)))
  }

  /** The value of the `Authorization` header built by `tweet`. */
  function AuthorizationHeader(c: Client, message: string, sign: Signer): string
  {
    var params := AuthorizationParameters(c, OAuthSign(c, message, sign));
    "OAuth " + Join(", ", SortedPairs(params, AuthorizationNames, true))
  }

  /** The form body `tweet` posts. */
  function RequestBody(message: string): string
  {
    "status=" + Percent.Encode(message)
  }

  /** The request `tweet` sends. */
  datatype Request = Request(
    verb: string,
    host: string,
    path: string,
    body: string,
    headers: seq<(string, string)>)

  /** `tweet`, up to the point where the request leaves. */
  function Tweet(c: Client, message: string, sign: Signer): Request
  {
    Request("POST", "api.twitter.com", "/1.1/statuses/update.json", RequestBody(message),
            [("Authorization", AuthorizationHeader(c, message, sign)),
             ("Content-Type", "application/x-www-form-urlencoded")])
  }

  /* The neighbouring names in code-point order, one comparison each. */

  lemma ConsumerKeyBeforeNonce()
    ensures Ordering.Less("oauth_consumer_key", "oauth_nonce")
  {
    Ordering.LessAt("oauth_consumer_key", "oauth_nonce", 6);
  }

  lemma NonceBeforeSignature()
    ensures Ordering.Less("oauth_nonce", "oauth_signature")
  {
    Ordering.LessAt("oauth_nonce", "oauth_signature", 6);
  }

  lemma NonceBeforeSignatureMethod()
    ensures Ordering.Less("oauth_nonce", "oauth_signature_method")
  {
    Ordering.LessAt("oauth_nonce", "oauth_signature_method", 6);
  }

  lemma SignatureBeforeSignatureMethod()
    ensures Ordering.Less("oauth_signature", "oauth_signature_method")
  {
    Ordering.LessPrefix("oauth_signature", "oauth_signature_method");
  }

  lemma SignatureMethodBeforeTimestamp()
    ensures Ordering.Less("oauth_signature_method", "oauth_timestamp")
  {
    Ordering.LessAt("oauth_signature_method", "oauth_timestamp", 6);
  }

  lemma TimestampBeforeToken()
    ensures Ordering.Less("oauth_timestamp", "oauth_token")
  {
    Ordering.LessAt("oauth_timestamp", "oauth_token", 7);
  }

  lemma TokenBeforeVersion()
    ensures Ordering.Less("oauth_token", "oauth_version")
  {
    Ordering.LessAt("oauth_token", "oauth_version", 6);
  }

  lemma VersionBeforeStatus()
    ensures Ordering.Less("oauth_version", "status")
  {
    Ordering.LessAt("oauth_version", "status", 0);
  }

  /** Seven strictly ascending strings are sorted. */
  lemma Ascending7(a: string, b: string, c: string, d: string, e: string, f: string, g: string)
    requires Ordering.Less(a, b) && Ordering.Less(b, c) && Ordering.Less(c, d)
    requires Ordering.Less(d, e) && Ordering.Less(e, f) && Ordering.Less(f, g)
    ensures Ordering.Sorted([a, b, c, d, e, f, g])
  {
    Ordering.SortedChain([a, b, c, d, e, f, g]);
  }

  /** The signature parameter names in code-point order: the `oauth_`
      names first, `status` last. */
  lemma SignatureOrderSorted()
    ensures Ordering.Sorted(SignatureOrder)
  {
    var o := SignatureOrder;
    ConsumerKeyBeforeNonce();
    NonceBeforeSignatureMethod();
    SignatureMethodBeforeTimestamp();
    TimestampBeforeToken();
    TokenBeforeVersion();
    VersionBeforeStatus();
    Ascending7(o[0], o[1], o[2], o[3], o[4], o[5], o[6]);
    assert [o[0], o[1], o[2], o[3], o[4], o[5], o[6]] == o;
  }

  /** `sorted` puts the signature parameters in that order. */
  lemma SortSignatureNames()
    ensures Ordering.Sort(SignatureNames) == SignatureOrder
  {
    SignatureOrderSorted();
    SignatureNamesPermuted();
    Ordering.SortedUnique(Ordering.Sort(SignatureNames), SignatureOrder);
  }

  /** The dictionary lists `status` first; the order moves it last. */
  lemma SignatureNamesPermuted()
    ensures multiset(SignatureNames) == multiset(SignatureOrder)
  {
    var o := SignatureOrder;
    assert SignatureNames == [o[6]] + o[..6];
    assert o == o[..6] + [o[6]];
  }

  /** The authorization parameters are already listed in code-point order
      (`oauth_signature` comes before `oauth_signature_method`, which extends
      it), so `sorted` keeps them as they are. */
  lemma SortAuthorizationNames()
    ensures Ordering.Sort(AuthorizationNames) == AuthorizationNames
  {
    var o := AuthorizationNames;
    ConsumerKeyBeforeNonce();
    NonceBeforeSignature();
    SignatureBeforeSignatureMethod();
    SignatureMethodBeforeTimestamp();
    TimestampBeforeToken();
    TokenBeforeVersion();
    Ascending7(o[0], o[1], o[2], o[3], o[4], o[5], o[6]);
    assert [o[0], o[1], o[2], o[3], o[4], o[5], o[6]] == o;
    Ordering.SortedUnique(Ordering.Sort(o), o);
  }

  /** A `name=value` entry splits back at its `=` into the name and the
      encoded value, and the value decodes to what was encoded. */
  lemma PairRoundTrip(name: string, value: string)
    requires '=' !in name
    ensures Split(Pair(name, value), "=") == [name, Percent.Encode(value)]
    ensures Percent.Decode(Split(Pair(name, value), "=")[1]) == Some(value)
  {
    var parts := [name, Percent.Encode(value)];
    Percent.EncodeAlphabet(value);
    assert Join("=", parts) == Pair(name, value);
    SplitJoin(parts, "=");
    Percent.DecodeEncode(value);
  }

  /** The same for a `name="value"` header entry: the text between the
      quotes decodes to the value. */
  lemma QuotedPairRoundTrip(name: string, value: string)
    requires '=' !in name
    ensures var parts := Split(QuotedPair(name, value), "=\"");
      && |parts| == 2 && parts[0] == name && parts[1] == Percent.Encode(value) + "\""
      && Percent.Decode(parts[1][..|parts[1]| - 1]) == Some(value)
  {
    var e := Percent.Encode(value);
    var parts := [name, e + "\""];
    Percent.EncodeAlphabet(value);
    assert '=' !in e + "\"";
    assert Join("=\"", parts) == QuotedPair(name, value);
    SplitJoin(parts, "=\"");
    assert parts[1][..|parts[1]| - 1] == e;
    Percent.DecodeEncode(value);
  }

  /** The entries for the given names and values, in that order. */
  function Entries(names: seq<string>, values: seq<string>, quoted: bool): seq<string>
    requires |names| == |values|
  {
    seq(|names|, k requires 0 <= k < |names| => Entry(names[k], values[k], quoted))
  }

  /** Iterating over the sorted keys and looking each one up gives the
      entries of the sorted keys with their values. */
  lemma SortedPairsEntries(params: map<string, string>, names: seq<string>, order: seq<string>,
                           values: seq<string>, quoted: bool)
    requires forall n :: n in names <==> n in params
    requires Ordering.Sort(names) == order && |order| == |values|
    requires forall k :: 0 <= k < |order| ==> order[k] in params && params[order[k]] == values[k]
    ensures SortedPairs(params, names, quoted) == Entries(order, values, quoted)
  {
  }

  /** An entry holds `&` or `,` only where its name does. */
  lemma EntryDelimiters(name: string, value: string, quoted: bool)
    ensures var e := Entry(name, value, quoted);
      && ('&' in e ==> '&' in name) && (',' in e ==> ',' in name)
  {
    Percent.EncodeAlphabet(value);
  }

  /** Entries joined with `&` or `, ` split back into the entries, provided
      no name holds the separator's first character. */
  lemma EntriesSplit(names: seq<string>, values: seq<string>, quoted: bool, sep: string)
    requires |names| == |values| > 0
    requires sep == "&" || sep == ", "
    requires forall k :: 0 <= k < |names| ==> sep[0] !in names[k]
    ensures Split(Join(sep, Entries(names, values, quoted)), sep) == Entries(names, values, quoted)
  {
    var entries := Entries(names, values, quoted);
    forall k | 0 <= k < |entries| ensures sep[0] !in entries[k] {
      EntryDelimiters(names[k], values[k], quoted);
    }
    SplitJoin(entries, sep);
  }

  /** No parameter name holds a separator. */
  lemma NamesPlain()
    ensures forall k :: 0 <= k < |SignatureOrder| ==> '&' !in SignatureOrder[k]
    ensures forall k :: 0 <= k < |AuthorizationNames| ==> ',' !in AuthorizationNames[k]
  {
  }

  /** The values of the signature parameters, in code-point order of their names. */
  function SignatureValues(c: Client, message: string): seq<string>
  {
    [c.consumerKey, c.nonce, c.signatureMethod, c.timestamp, c.accessToken, c.version, message]
  }

  lemma SignatureLookups(c: Client, message: string)
    ensures forall k :: 0 <= k < |SignatureOrder| ==>
      SignatureOrder[k] in SignatureParameters(c, message) &&
      SignatureParameters(c, message)[SignatureOrder[k]] == SignatureValues(c, message)[k]
  {
  }

  /** The parameter string is the seven signature parameters, sorted by name,
      each written `name=encode(value)`, joined with `&`. */
  lemma ParamStringLayout(c: Client, message: string)
    ensures ParamString(c, message) ==
      Join("&", Entries(SignatureOrder, SignatureValues(c, message), false))
  {
    SortSignatureNames();
    SignatureLookups(c, message);
    SortedPairsEntries(SignatureParameters(c, message), SignatureNames, SignatureOrder,
                       SignatureValues(c, message), false);
  }

  /** The parameter string splits on `&` back into its seven entries: neither
      the names nor the encoded values contain `&`. */
  lemma ParamStringSplits(c: Client, message: string)
    ensures Split(ParamString(c, message), "&") ==
      Entries(SignatureOrder, SignatureValues(c, message), false)
  {
    ParamStringLayout(c, message);
    NamesPlain();
    EntriesSplit(SignatureOrder, SignatureValues(c, message), false, "&");
  }

  /** The signature base string splits on `&` into exactly the method, the
      encoded URL and the encoded parameter string. */
  lemma SignatureBaseStringSplits(c: Client, message: string)
    ensures Split(SignatureBaseString(c, message), "&") ==
      ["POST", Percent.Encode(c.baseUrl), Percent.Encode(ParamString(c, message))]
  {
    BaseStringParts(c.baseUrl, ParamString(c, message));
  }

  lemma BaseStringParts(url: string, params: string)
    ensures Split(Join("&", ["POST", Percent.Encode(url), Percent.Encode(params)]), "&") ==
      ["POST", Percent.Encode(url), Percent.Encode(params)]
  {
    Percent.EncodeAlphabet(url);
    Percent.EncodeAlphabet(params);
    SplitJoin(["POST", Percent.Encode(url), Percent.Encode(params)], "&");
  }

  /** The signing key holds exactly one `&`, between the two encoded secrets,
      and splits there back into them. */
  lemma SigningKeyOneSeparator(c: Client)
    ensures var key := SigningKey(c);
      var at := |Percent.Encode(c.consumerSecret)|;
      && Split(key, "&") == [Percent.Encode(c.consumerSecret), Percent.Encode(c.accessTokenSecret)]
      && at < |key|
      && forall k :: 0 <= k < |key| ==> (key[k] == '&' <==> k == at)
  {
    KeyParts(c.consumerSecret, c.accessTokenSecret);
  }

  lemma KeyParts(consumerSecret: string, tokenSecret: string)
    ensures var a := Percent.Encode(consumerSecret);
      var key := Join("&", [a, Percent.Encode(tokenSecret)]);
      && Split(key, "&") == [a, Percent.Encode(tokenSecret)]
      && |a| < |key|
      && forall k :: 0 <= k < |key| ==> (key[k] == '&' <==> k == |a|)
  {
    var a := Percent.Encode(consumerSecret);
    var b := Percent.Encode(tokenSecret);
    Percent.EncodeAlphabet(consumerSecret);
    Percent.EncodeAlphabet(tokenSecret);
    SplitJoin([a, b], "&");
    var key := a + "&" + b;
    assert Join("&", [a, b]) == key;
    forall k | 0 <= k < |key| ensures key[k] == '&' <==> k == |a| {
      if k < |a| {
        assert key[k] == a[k];
      } else if k > |a| {
        assert key[k] == b[k - |a| - 1];
      }
    }
  }

  /** The values of the authorization parameters, in code-point order of
      their names, the signature among them. */
  function AuthorizationValues(c: Client, signature: string): seq<string>
  {
    [c.consumerKey, c.nonce, signature, c.signatureMethod, c.timestamp, c.accessToken, c.version]
  }

  lemma AuthorizationLookups(c: Client, signature: string)
    ensures forall k :: 0 <= k < |AuthorizationNames| ==>
      AuthorizationNames[k] in AuthorizationParameters(c, signature) &&
      AuthorizationParameters(c, signature)[AuthorizationNames[k]] == AuthorizationValues(c, signature)[k]
  {
  }

  /** The header is `OAuth ` and the seven authorization parameters sorted by
      name, each `name="encode(value)"`, joined with `, `; the
      `oauth_signature` entry carries the encoded result of `oauth_sign`. */
  lemma AuthorizationHeaderLayout(c: Client, message: string, sign: Signer)
    ensures AuthorizationHeader(c, message, sign) ==
      "OAuth " + Join(", ", Entries(AuthorizationNames, AuthorizationValues(c, OAuthSign(c, message, sign)), true))
    ensures Entries(AuthorizationNames, AuthorizationValues(c, OAuthSign(c, message, sign)), true)[2] ==
      "oauth_signature=\"" + Percent.Encode(OAuthSign(c, message, sign)) + "\""
  {
    var signature := OAuthSign(c, message, sign);
    SignatureEntry(c, signature);
    HeaderEntries(c, signature);
  }

  /** The third entry, in code-point order, is the signature. */
  lemma SignatureEntry(c: Client, signature: string)
    ensures Entries(AuthorizationNames, AuthorizationValues(c, signature), true)[2] ==
      "oauth_signature=\"" + Percent.Encode(signature) + "\""
  {
  }

  lemma HeaderEntries(c: Client, signature: string)
    ensures SortedPairs(AuthorizationParameters(c, signature), AuthorizationNames, true) ==
      Entries(AuthorizationNames, AuthorizationValues(c, signature), true)
  {
    SortAuthorizationNames();
    AuthorizationLookups(c, signature);
    SortedPairsEntries(AuthorizationParameters(c, signature), AuthorizationNames, AuthorizationNames,
                       AuthorizationValues(c, signature), true);
  }

  /** After `OAuth `, the header splits on `, ` back into its seven entries. */
  lemma AuthorizationHeaderSplits(c: Client, message: string, sign: Signer)
    ensures var header := AuthorizationHeader(c, message, sign);
      && header[..6] == "OAuth "
      && Split(header[6..], ", ") ==
         Entries(AuthorizationNames, AuthorizationValues(c, OAuthSign(c, message, sign)), true)
  {
    AuthorizationHeaderLayout(c, message, sign);
    NamesPlain();
    EntriesSplit(AuthorizationNames, AuthorizationValues(c, OAuthSign(c, message, sign)), true, ", ");
  }

  /** The body is the single form field `status`, whose value decodes back to
      the message. */
  lemma RequestBodyRoundTrip(message: string)
    ensures Split(RequestBody(message), "=") == ["status", Percent.Encode(message)]
    ensures Percent.Decode(Split(RequestBody(message), "=")[1]) == Some(message)
  {
    assert RequestBody(message) == Pair("status", message);
    PairRoundTrip("status", message);
  }

  /** Each of `entries` is `name="value"` for the name at its position,
      with a quoted value that decodes to the value at its position. */
  ghost predicate ParsesBack(entries: seq<string>, names: seq<string>, values: seq<string>) {
    && |entries| == |names| == |values|
    && forall k :: 0 <= k < |entries| ==>
         var parts := Split(entries[k], "=\"");
         && |parts| == 2 && parts[0] == names[k] && |parts[1]| > 0
         && Percent.Decode(parts[1][..|parts[1]| - 1]) == Some(values[k])
  }

  /** Quoted entries parse back into their names and values. */
  lemma EntriesParse(names: seq<string>, values: seq<string>)
    requires |names| == |values|
    requires forall k :: 0 <= k < |names| ==> '=' !in names[k]
    ensures ParsesBack(Entries(names, values, true), names, values)
  {
    var entries := Entries(names, values, true);
    forall k | 0 <= k < |names|
      ensures var parts := Split(entries[k], "=\"");
        && |parts| == 2 && parts[0] == names[k] && |parts[1]| > 0
        && Percent.Decode(parts[1][..|parts[1]| - 1]) == Some(values[k])
    {
      assert entries[k] == QuotedPair(names[k], values[k]);
      QuotedPairRoundTrip(names[k], values[k]);
    }
  }

  /** The authorization names are in code-point order. */
  lemma AuthorizationNamesSorted()
    ensures Ordering.Sorted(AuthorizationNames)
  {
    SortAuthorizationNames();
  }

  /** The `Authorization` header `tweet` sends parses back: after `OAuth `
      it splits on `, ` into the entries of the authorization names, in
      code-point order, each `name="value"` whose value decodes to the
      parameter it was written from, the signature of the message among them. */
  lemma TweetHeaderParses(c: Client, message: string, sign: Signer)
    ensures Tweet(c, message, sign).headers[0].0 == "Authorization"
    ensures Ordering.Sorted(AuthorizationNames)
    ensures var header := Tweet(c, message, sign).headers[0].1;
      && header[..6] == "OAuth "
      && ParsesBack(Split(header[6..], ", "), AuthorizationNames,
                    AuthorizationValues(c, OAuthSign(c, message, sign)))
  {
    assert Tweet(c, message, sign).headers[0].1 == AuthorizationHeader(c, message, sign);
    AuthorizationNamesSorted();
    AuthorizationHeaderSplits(c, message, sign);
    AuthorizationNamesPlain();
    EntriesParse(AuthorizationNames, AuthorizationValues(c, OAuthSign(c, message, sign)));
  }

  /** No authorization name holds `=`. */
  lemma AuthorizationNamesPlain()
    ensures forall k :: 0 <= k < |AuthorizationNames| ==> '=' !in AuthorizationNames[k]
  {
  }

  /** Its `Authorization` header carries the encoded signature of the
      message as its third entry. */
  lemma TweetSignature(c: Client, message: string, sign: Signer)
    ensures var header := Tweet(c, message, sign).headers[0].1;
      var entries := Split(header[6..], ", ");
      && header[..6] == "OAuth " && |entries| == 7
      && entries[2] ==
         "oauth_signature=\"" + Percent.Encode(OAuthSign(c, message, sign)) + "\""
  {
    var header := AuthorizationHeader(c, message, sign);
    assert Tweet(c, message, sign).headers[0].1 == header;
    AuthorizationHeaderSplits(c, message, sign);
    SignatureEntry(c, OAuthSign(c, message, sign));
  }

  /** Its body decodes back to the message. */
  lemma TweetBody(c: Client, message: string, sign: Signer)
    ensures Split(Tweet(c, message, sign).body, "=") == ["status", Percent.Encode(message)]
    ensures Percent.Decode(Split(Tweet(c, message, sign).body, "=")[1]) == Some(message)
  {
    assert Tweet(c, message, sign).body == RequestBody(message);
    RequestBodyRoundTrip(message);
  }
}
