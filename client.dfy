/**
 * The Mercado Bitcoin client with its transport stripped away: the three
 * configuration modes, the request signature, the ordered parameter list of
 * each private call, the signed POST it would send, and the URIs of the two
 * public calls.
 */
module MbClient {
  import opened Wrappers
  import opened Codes
  import Utf8
  import Hex
  import Decimal
  import Separated
  import FormUrlencoded

  type byte = Utf8.byte
  type Query = FormUrlencoded.Query
  type i64 = x: int | -0x8000_0000_0000_0000 <= x < 0x8000_0000_0000_0000

  /** A 512-bit MAC tag. */
  type Digest = s: seq<byte> | |s| == 64 witness seq(64, _ => 0)

  /** HMAC-SHA-512 (RFC 2104 over the SHA-512 of FIPS 180-4): key bytes, message bytes, tag. */
  type Mac = (seq<byte>, seq<byte>) -> Digest

  const ApiVersionPath := "/tapi/v3/"

  /** The configuration a client holds; it is never changed after construction. */
  datatype Client = Client(
    publicUrl: Option<string>,
    privateUrl: Option<string>,
    identifier: Option<string>,
    secret: Option<string>)

  /** The market-data calls need the public base URL. */
  predicate PublicCapable(c: Client) {
    c.publicUrl.Some?
  }

  /** The trading calls need the private URL and both credentials. */
  predicate PrivateCapable(c: Client) {
    c.privateUrl.Some? && c.identifier.Some? && c.secret.Some?
  }

  function PublicUrl(c: Client): (u: string)
    requires c.publicUrl.Some?
    ensures c.publicUrl == Some(u)
  {
    c.publicUrl.value
  }

  function PrivateUrl(c: Client): (u: string)
    requires c.privateUrl.Some?
    ensures c.privateUrl == Some(u)
  {
    c.privateUrl.value
  }

  function Identifier(c: Client): (id: string)
    requires c.identifier.Some?
    ensures c.identifier == Some(id)
  {
    c.identifier.value
  }

  function Secret(c: Client): (s: string)
    requires c.secret.Some?
    ensures c.secret == Some(s)
  {
    c.secret.value
  }

  /** A client for both the public and the private API. */
  function Init(publicUrl: string, privateUrl: string, identifier: string, secret: string): (c: Client)
    ensures PublicCapable(c) && PrivateCapable(c)
    ensures PublicUrl(c) == publicUrl && PrivateUrl(c) == privateUrl
    ensures Identifier(c) == identifier && Secret(c) == secret
  {
    Client(Some(publicUrl), Some(privateUrl), Some(identifier), Some(secret))
  }

  /** A client for the public API only: no private URL and no credentials. */
  function InitPublic(url: string): (c: Client)
    ensures PublicCapable(c) && PublicUrl(c) == url
    ensures c.privateUrl.None? && c.identifier.None? && c.secret.None?
    ensures !PrivateCapable(c)
  {
    Client(Some(url), None, None, None)
  }

  /** A client for the private API only: no public URL. */
  function InitPrivate(url: string, identifier: string, secret: string): (c: Client)
    ensures !PublicCapable(c)
    ensures PrivateCapable(c)
    ensures PrivateUrl(c) == url && Identifier(c) == identifier && Secret(c) == secret
  {
    Client(None, Some(url), Some(identifier), Some(secret))
  }

  /** The text the MAC is computed over: the version path, `?`, then the serialized parameters. */
  function SigningInput(params: Query): (r: string)
    ensures |r| > |ApiVersionPath| && r[..|ApiVersionPath| + 1] == ApiVersionPath + "?"
    ensures FormUrlencoded.Parse(r[|ApiVersionPath| + 1..]) == Some(params)
  {
    var body := FormUrlencoded.Serialize(params);
    FormUrlencoded.RoundTrip(params);
    var r := ApiVersionPath + "?" + body;
    assert r[|ApiVersionPath| + 1..] == body;
    r
  }

  /**
   * Lists that differ in any name, any value, their length or their order
   * give different signing inputs.
   */
  lemma SigningInputInjective(p: Query, q: Query)
    requires SigningInput(p) == SigningInput(q)
    ensures p == q
  {
  }

  /** The same pairs in another order are signed over a different input. */
  lemma ReorderingChangesSigningInput(p: Query, q: Query)
    requires multiset(p) == multiset(q) && p != q
    ensures SigningInput(p) != SigningInput(q)
  {
    if SigningInput(p) == SigningInput(q) {
      SigningInputInjective(p, q);
    }
  }

  /** The request signature: the lowercase hex of the MAC, keyed by the secret, of the signing input. */
  function Sign(c: Client, hmac: Mac, params: Query): (r: string)
    requires c.secret.Some?
    ensures |r| == 128
    ensures forall i :: 0 <= i < |r| ==> Hex.IsLowerHexDigit(r[i])
    ensures Hex.Decode(r) == Some(hmac(Utf8.Encode(Secret(c)), Utf8.Encode(SigningInput(params))))
  {
    var tag := hmac(Utf8.Encode(Secret(c)), Utf8.Encode(SigningInput(params)));
    Hex.RoundTrip(tag);
    Hex.Encode(tag)
  }

  /** Nothing in the client but the secret enters the signature. */
  lemma SignDependsOnSecretOnly(c: Client, d: Client, hmac: Mac, params: Query)
    requires c.secret.Some? && c.secret == d.secret
    ensures Sign(c, hmac, params) == Sign(d, hmac, params)
  {
  }

  function BoolToString(b: bool): (r: string)
    ensures r == "true" <==> b
    ensures r == "false" <==> !b
  {
    if b then "true" else "false"
  }

  function Keys(q: Query): (ks: seq<string>)
    ensures |ks| == |q|
    ensures forall i :: 0 <= i < |q| ==> ks[i] == q[i].0
  {
    if |q| == 0 then [] else [q[0].0] + Keys(q[1..])
  }

  /** Every private call's list opens with the method name and then the nonce in decimal. */
  predicate PrivateHead(q: Query, methodName: string, nonce: i64) {
    && |q| >= 2
    && q[0] == ("tapi_method", methodName)
    && q[1].0 == "tapi_nonce"
    && Decimal.ParseInt(q[1].1) == Some(nonce as int)
  }

  /** The nonce as `i64::to_string` writes it. */
  function NonceText(nonce: i64): (r: string)
    ensures Decimal.ParseInt(r) == Some(nonce as int)
  {
    Decimal.IntRoundTrip(nonce);
    Decimal.IntToString(nonce)
  }

  /**
   * The decimal reader is strict, so the nonce entry of a private call's
   * list is exactly the canonical text of the nonce: no padding, no `-0`.
   */
  lemma PrivateHeadNonce(q: Query, methodName: string, nonce: i64)
    requires PrivateHead(q, methodName, nonce)
    ensures q[1] == ("tapi_nonce", NonceText(nonce))
  {
    Decimal.IntCanonical(q[1].1, nonce as int);
  }

  /** The parameters of `list_orderbook`. */
  function OrderbookParams(nonce: i64, coinPair: string, full: bool): (q: Query)
    ensures PrivateHead(q, "list_orderbook", nonce)
    ensures Keys(q) == ["tapi_method", "tapi_nonce", "coin_pair", "full"]
    ensures q[2].1 == coinPair
    ensures q[3].1 == (if full then "true" else "false")
  {
    [ ("tapi_method", "list_orderbook"),
      ("tapi_nonce", NonceText(nonce)),
      ("coin_pair", coinPair),
      ("full", BoolToString(full)) ]
  }

  /**
   * The parameters of `place_buy_order` and `place_sell_order`. Quantity
   * and price come already formatted (eight and two decimal places).
   */
  function PlaceOrderParams(orderType: OrderType, nonce: i64, quantity: string, limitPrice: string, coinPair: string): (q: Query)
    ensures PrivateHead(q, orderType.PlaceOrderName(), nonce)
    ensures Keys(q) == ["tapi_method", "tapi_nonce", "coin_pair", "quantity", "limit_price"]
    ensures q[2].1 == coinPair && q[3].1 == quantity && q[4].1 == limitPrice
  {
    [ ("tapi_method", orderType.PlaceOrderName()),
      ("tapi_nonce", NonceText(nonce)),
      ("coin_pair", coinPair),
      ("quantity", quantity),
      ("limit_price", limitPrice) ]
  }

  /** The parameters of `get_account_info`. */
  function AccountInfoParams(nonce: i64): (q: Query)
    ensures PrivateHead(q, "get_account_info", nonce)
    ensures Keys(q) == ["tapi_method", "tapi_nonce"]
  {
    [ ("tapi_method", "get_account_info"),
      ("tapi_nonce", NonceText(nonce)) ]
  }

  /** A signed POST: the form body, and the `TAPI-ID` and `TAPI-MAC` headers. */
  datatype SignedPost = SignedPost(url: string, form: string, tapiId: string, tapiMac: string)

  /**
   * What a signed POST for `params` is: it goes to the private URL with the
   * identifier header, its body reads back as `params`, and its MAC header
   * is the hex of the MAC, keyed by the secret, over the version path, `?`
   * and exactly that body.
   */
  predicate SignedFor(r: SignedPost, c: Client, hmac: Mac, params: Query)
    requires PrivateCapable(c)
  {
    && r.url == PrivateUrl(c)
    && r.tapiId == Identifier(c)
    && FormUrlencoded.Parse(r.form) == Some(params)
    && Hex.Decode(r.tapiMac) == Some(hmac(Utf8.Encode(Secret(c)), Utf8.Encode(ApiVersionPath + "?" + r.form)))
  }

  /** The readers are strict, so SignedFor leaves no freedom: body and MAC are determined. */
  lemma SignedForUnique(r: SignedPost, s: SignedPost, c: Client, hmac: Mac, params: Query)
    requires PrivateCapable(c)
    requires SignedFor(r, c, hmac, params) && SignedFor(s, c, hmac, params)
    ensures r == s
  {
    FormUrlencoded.Canonical(r.form, params);
    FormUrlencoded.Canonical(s.form, params);
    var tag := hmac(Utf8.Encode(Secret(c)), Utf8.Encode(ApiVersionPath + "?" + r.form));
    Hex.Canonical(r.tapiMac, tag);
    Hex.Canonical(s.tapiMac, tag);
  }

  /** The request a private call sends. */
  function PrivateRequest(c: Client, hmac: Mac, params: Query): (r: SignedPost)
    requires PrivateCapable(c)
    ensures SignedFor(r, c, hmac, params)
  {
    FormUrlencoded.RoundTrip(params);
    SignedPost(PrivateUrl(c), FormUrlencoded.Serialize(params), Identifier(c), Sign(c, hmac, params))
  }

  /** The `list_orderbook` call, signed. */
  function OrderbookRequest(c: Client, hmac: Mac, nonce: i64, coinPair: string, full: bool): (r: SignedPost)
    requires PrivateCapable(c)
    ensures SignedFor(r, c, hmac, OrderbookParams(nonce, coinPair, full))
  {
    PrivateRequest(c, hmac, OrderbookParams(nonce, coinPair, full))
  }

  /** A limit order of either side, signed. */
  function PlaceOrderRequest(c: Client, hmac: Mac, orderType: OrderType, nonce: i64, quantity: string, limitPrice: string, coinPair: string): (r: SignedPost)
    requires PrivateCapable(c)
    ensures SignedFor(r, c, hmac, PlaceOrderParams(orderType, nonce, quantity, limitPrice, coinPair))
  {
    PrivateRequest(c, hmac, PlaceOrderParams(orderType, nonce, quantity, limitPrice, coinPair))
  }

  /** A limit buy: the pair, quantity and price go through unchanged, under `place_buy_order`. */
  function PlaceBuyOrderRequest(c: Client, hmac: Mac, nonce: i64, quantity: string, limitPrice: string, coinPair: string): (r: SignedPost)
    requires PrivateCapable(c)
    ensures SignedFor(r, c, hmac, PlaceOrderParams(Buy, nonce, quantity, limitPrice, coinPair))
    ensures var q := FormUrlencoded.Parse(r.form); q.Some? && PrivateHead(q.value, "place_buy_order", nonce)
  {
    PlaceOrderRequest(c, hmac, Buy, nonce, quantity, limitPrice, coinPair)
  }

  /** A limit sell: the pair, quantity and price go through unchanged, under `place_sell_order`. */
  function PlaceSellOrderRequest(c: Client, hmac: Mac, nonce: i64, quantity: string, limitPrice: string, coinPair: string): (r: SignedPost)
    requires PrivateCapable(c)
    ensures SignedFor(r, c, hmac, PlaceOrderParams(Sell, nonce, quantity, limitPrice, coinPair))
    ensures var q := FormUrlencoded.Parse(r.form); q.Some? && PrivateHead(q.value, "place_sell_order", nonce)
  {
    PlaceOrderRequest(c, hmac, Sell, nonce, quantity, limitPrice, coinPair)
  }

  /** The `get_account_info` call, signed. */
  function AccountInfoRequest(c: Client, hmac: Mac, nonce: i64): (r: SignedPost)
    requires PrivateCapable(c)
    ensures SignedFor(r, c, hmac, AccountInfoParams(nonce))
  {
    PrivateRequest(c, hmac, AccountInfoParams(nonce))
  }

  /** The URI of the ticker of `currency`. */
  function TickerUri(c: Client, currency: string): (u: string)
    requires PublicCapable(c)
    ensures PublicUrl(c) <= u
    ensures Separated.Split(u[|PublicUrl(c)|..], '/') == [""] + Separated.Split(currency, '/') + ["ticker"]
    ensures '/' !in currency ==> Separated.Split(u[|PublicUrl(c)|..], '/') == ["", currency, "ticker"]
  {
    var path := "/" + currency + "/ticker";
    assert Separated.Split(path, '/') == [""] + Separated.Split(currency, '/') + ["ticker"] by {
      assert path == ("/" + currency) + ['/'] + Separated.Join(["ticker"], '/');
      Separated.SplitThenParts("/" + currency, ["ticker"], '/');
      Separated.SplitLeadingSep(currency, '/');
    }
    assert '/' !in currency ==> Separated.Split(currency, '/') == [currency] by {
      if '/' !in currency {
        Separated.SplitWithoutSep(currency, '/');
      }
    }
    var u := PublicUrl(c) + path;
    assert u[|PublicUrl(c)|..] == path;
    u
  }

  /** Different currencies are asked for at different ticker URIs. */
  lemma TickerUriInjective(c: Client, a: string, b: string)
    requires PublicCapable(c)
    requires TickerUri(c, a) == TickerUri(c, b)
    ensures a == b
  {
    var sa, sb := Separated.Split(a, '/'), Separated.Split(b, '/');
    assert ([""] + sa + ["ticker"])[1..|sa| + 1] == sa;
    assert |sa| == |sb|;
    assert ([""] + sb + ["ticker"])[1..|sb| + 1] == sb;
    Separated.SplitInjective(a, b, '/');
  }

  /** A calendar date as chrono's `Date` holds it (proleptic Gregorian). */
  datatype Date = Date(year: int, month: nat, day: nat)

  predicate IsLeapYear(y: int) {
    y % 4 == 0 && (y % 100 != 0 || y % 400 == 0)
  }

  function DaysInMonth(y: int, m: nat): nat
    requires 1 <= m <= 12
  {
    if m == 2 then (if IsLeapYear(y) then 29 else 28)
    else if m == 4 || m == 6 || m == 9 || m == 11 then 30
    else 31
  }

  /** The dates chrono can represent. */
  predicate ValidDate(d: Date) {
    && -262144 <= d.year <= 262143
    && 1 <= d.month <= 12
    && 1 <= d.day <= DaysInMonth(d.year, d.month)
  }

  /** Reads `/<currency>/day-summary/<year>/<month>/<day>`. */
  function ParseDaySummaryPath(s: string): Option<(string, Date)> {
    var parts := Separated.Split(s, '/');
    if |parts| == 6 && parts[0] == "" && parts[2] == "day-summary" then
      match (Decimal.ParseInt(parts[3]), Decimal.ParseNat(parts[4]), Decimal.ParseNat(parts[5]))
      case (Some(y), Some(m), Some(d)) => Some((parts[1], Date(y, m, d)))
      case _ => None
    else None
  }

  /**
   * `/<currency>/day-summary/<year>/<month>/<day>`, each number in plain
   * decimal; the currency is copied as it is, whatever it holds.
   */
  function DaySummaryPath(currency: string, date: Date): (r: string)
    ensures Separated.Split(r, '/')
         == [""] + Separated.Split(currency, '/')
          + ["day-summary", Decimal.IntToString(date.year), Decimal.NatToString(date.month), Decimal.NatToString(date.day)]
    ensures '/' !in currency ==> Separated.Split(r, '/') == DaySummarySegments(currency, date)
  {
    var y, m, d := Decimal.IntToString(date.year), Decimal.NatToString(date.month), Decimal.NatToString(date.day);
    var r := "/" + currency + "/day-summary/" + y + "/" + m + "/" + d;
    var tail := ["day-summary", y, m, d];
    assert Separated.Split(r, '/') == [""] + Separated.Split(currency, '/') + tail by {
      Separated.JoinFour("day-summary", y, m, d, '/');
      assert r == ("/" + currency) + ['/'] + Separated.Join(tail, '/');
      assert '/' !in y && '/' !in m && '/' !in d;
      Separated.SplitThenParts("/" + currency, tail, '/');
      Separated.SplitLeadingSep(currency, '/');
    }
    assert '/' !in currency ==> Separated.Split(currency, '/') == [currency] by {
      if '/' !in currency {
        Separated.SplitWithoutSep(currency, '/');
      }
    }
    r
  }

  /** The six path segments: empty, the currency, `day-summary`, then year, month and day in decimal. */
  function DaySummarySegments(currency: string, date: Date): seq<string> {
    ["", currency, "day-summary", Decimal.IntToString(date.year),
     Decimal.NatToString(date.month), Decimal.NatToString(date.day)]
  }

  lemma JoinDaySummarySegments(currency: string, y: string, m: string, d: string)
    ensures Separated.Join(["", currency, "day-summary", y, m, d], '/')
         == "/" + currency + "/day-summary/" + y + "/" + m + "/" + d
  {
    Separated.JoinSix("", currency, "day-summary", y, m, d, '/');
    assert "/day-summary/" == ['/'] + "day-summary" + ['/'];
  }

  /** The day-summary path reads back as the currency and the date. */
  lemma DaySummaryPathRoundTrip(currency: string, date: Date)
    requires '/' !in currency
    ensures ParseDaySummaryPath(DaySummaryPath(currency, date)) == Some((currency, date))
  {
    Decimal.IntRoundTrip(date.year);
    Decimal.NatRoundTrip(date.month);
    Decimal.NatRoundTrip(date.day);
  }

  /**
   * The decimal readers are strict, so the only path that reads back as a
   * currency and a date is the one DaySummaryPath writes: no zero padding.
   */
  lemma DaySummaryPathCanonical(s: string, currency: string, date: Date)
    requires ParseDaySummaryPath(s) == Some((currency, date))
    ensures s == DaySummaryPath(currency, date)
  {
    var parts := Separated.Split(s, '/');
    Separated.JoinSplit(s, '/');
    Decimal.IntCanonical(parts[3], date.year);
    Decimal.NatCanonical(parts[4], date.month);
    Decimal.NatCanonical(parts[5], date.day);
    assert parts == DaySummarySegments(currency, date);
    JoinDaySummarySegments(currency, parts[3], parts[4], parts[5]);
  }

  /** The URI of the summary of one day, with the date unpadded. */
  function DaySummaryUri(c: Client, currency: string, date: Date): (u: string)
    requires PublicCapable(c) && ValidDate(date)
    ensures u == PublicUrl(c) + DaySummaryPath(currency, date)
    ensures '/' !in currency ==> Separated.Split(u[|PublicUrl(c)|..], '/') == DaySummarySegments(currency, date)
    ensures '/' !in currency ==> ParseDaySummaryPath(u[|PublicUrl(c)|..]) == Some((currency, date))
  {
    var path := DaySummaryPath(currency, date);
    assert '/' !in currency ==> ParseDaySummaryPath(path) == Some((currency, date)) by {
      if '/' !in currency {
        DaySummaryPathRoundTrip(currency, date);
      }
    }
    var u := PublicUrl(c) + path;
    assert u[|PublicUrl(c)|..] == path;
    u
  }

  /** The fixed time of day the day-summary reader appends to a date-only string. */
  const DayEndTime := "23:59:59.004011"

  /** The text handed to the date-time parser for a day summary's date. */
  function MbDateText(s: string): (r: string)
    ensures s <= r
    ensures Separated.Split(r, ' ') == Separated.Split(s, ' ') + [DayEndTime]
    ensures ' ' !in s ==> Separated.Split(r, ' ') == [s, DayEndTime]
  {
    var r := s + " " + DayEndTime;
    assert Separated.Split(r, ' ') == Separated.Split(s, ' ') + [DayEndTime] by {
      assert r == s + [' '] + Separated.Join([DayEndTime], ' ');
      assert ' ' !in DayEndTime;
      Separated.SplitThenParts(s, [DayEndTime], ' ');
    }
    assert ' ' !in s ==> Separated.Split(s, ' ') == [s] by {
      if ' ' !in s {
        Separated.SplitWithoutSep(s, ' ');
      }
    }
    r
  }

  /** Different date texts are handed to the parser as different texts. */
  lemma MbDateTextInjective(s: string, t: string)
    requires MbDateText(s) == MbDateText(t)
    ensures s == t
  {
    var ss, st := Separated.Split(s, ' '), Separated.Split(t, ' ');
    assert (ss + [DayEndTime])[..|ss|] == ss;
    assert (st + [DayEndTime])[..|st|] == st;
    Separated.SplitInjective(s, t, ' ');
  }
}
