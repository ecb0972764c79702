# Mercado Bitcoin client core, modelled in Dafny

This project models the deterministic core of `src/client.rs`, a client for
the Mercado Bitcoin REST trade API. The HTTP transport is removed. What is
left is pure: the status-code table, the response envelope, the three client
configurations, the request signature, each private call's ordered parameter
list, and the public URIs.

The model is split into modules:

- `Codes` holds `ApiStatus` (28 numeric codes), `OrderType` and `OrderStatus`, each decoded partially from its number.
- `Envelope` holds the `{ response_data, status_code }` response, `is_success`, and the step that turns a response into `Ok(payload)` or `ApiError(status)`.
- `MbClient` holds the `Client` record with its constructors and accessors, the signing input, `sign`, the parameter lists of `orderbook`, `place_order` and `get_account_info`, the signed POST each call sends, the `ticker` and `day_summary` URIs, and the day-summary date suffix.
- `Decimal`, `Utf8`, `FormUrlencoded`, `Hex` and `Separated` model the library behaviour the client relies on. These are integer `to_string`, `str::as_bytes`, the `application/x-www-form-urlencoded` serializer of the WHATWG URL Standard (section 5.2), `hex::encode`, and joining with a separator.
- Each of those encoders has a strict reading side (a parser or decoder). Round-trip lemmas show the reader gives the input back. Canonicity lemmas show it accepts nothing but encoder output. So each reading is a bijection, and the signing input, the form body, the nonce text and the day-summary path are each determined exactly by what they encode.
- `ClientExamples` works out concrete requests.

HMAC-SHA-512 (RFC 2104 over the SHA-512 of FIPS 180-4) is a parameter `hmac: Mac`. It is a total function from key bytes and message bytes to a 64-byte digest, and it is never interpreted. The nonce, the quantity and the price are inputs: the nonce is a 64-bit integer, and quantity and price are already-formatted strings.

The model follows the code in two places:

- An unlisted status code makes the JSON decoding of the whole envelope fail. The client reports this as `RequestError`, not as an API error (`Envelope.Receive`).
- On a non-success status the payload is neither required to be absent nor looked at.

## Model

| member | source | states |
|---|---|---|
| Codes.DecodeApiStatus | src/client.rs:25-84 | decoding succeeds exactly on the 28 listed codes, and the decoded variant's code is the number read |
| Codes.DecodeCode | src/client.rs:25-84 | every variant's code is a listed code and decodes back to that variant |
| Codes.CodesDistinct | src/client.rs:25-84 | no two variants share a code |
| Codes.SuccessCode | src/client.rs:28-29 | the only number that decodes to Success is 100 |
| Codes.DecodeOrderType | src/client.rs:119-124 | an order side decodes from 1 or 2 and from nothing else, keeping its code |
| Codes.OrderType.PlaceOrderName | src/client.rs:126-133 | Buy names `place_buy_order`, Sell names `place_sell_order` |
| Codes.OrderTypeFacts | src/client.rs:119-133 | each side round-trips its code; the two sides have different method names |
| Codes.DecodeOrderStatus | src/client.rs:370-376 | an order status decodes from 2, 3 or 4 and from nothing else, keeping its code |
| Codes.OrderStatusRoundTrip | src/client.rs:370-376 | each status decodes back from its code |
| Envelope.IsSuccess | src/client.rs:303-310 | holds exactly when the status code is 100 |
| Envelope.Resolve | src/client.rs:362-366 | Ok exactly on code 100, with the response's own payload (whose presence is required); otherwise ApiError with the same status |
| Envelope.DecodeResponse | src/client.rs:297-301 | the envelope decodes exactly when its code is listed, keeping payload and code |
| Envelope.Receive | src/client.rs:358-366 | an unlisted code is a request error, code 100 gives the payload, and any other listed code gives ApiError with that code |
| MbClient.Init | src/client.rs:147-159 | the client has all four fields, each the argument given |
| MbClient.InitPublic | src/client.rs:162-169 | only the public URL is present, so the client can make public calls and not private ones |
| MbClient.InitPrivate | src/client.rs:172-179 | the private URL, identifier and secret are present and the public URL is absent |
| MbClient.PublicUrl | src/client.rs:181-183 | requires the public URL and returns its contents |
| MbClient.PrivateUrl | src/client.rs:185-187 | requires the private URL and returns its contents |
| MbClient.Identifier | src/client.rs:189-191 | requires the identifier and returns its contents |
| MbClient.Secret | src/client.rs:193-195 | requires the secret and returns its contents |
| MbClient.SigningInput | src/client.rs:202-205 | the input begins with `/tapi/v3/?`, and the rest reads back as the parameter list through the strict reader; by `FormUrlencoded.Canonical` that rest is exactly the serialized list |
| MbClient.SigningInputInjective | src/client.rs:202-205 | two parameter lists with the same signing input are equal |
| MbClient.ReorderingChangesSigningInput | src/client.rs:202-205 | the same pairs in a different order give a different signing input |
| MbClient.Sign | src/client.rs:202-215 | 128 lowercase hex digits, which decode to the MAC, keyed by the secret's bytes, of the signing input's bytes |
| MbClient.SignDependsOnSecretOnly | src/client.rs:202-215 | clients with the same secret give the same signature |
| MbClient.NonceText | src/client.rs:341-345 | the nonce text reads back as the nonce through the strict integer reader, so it is the canonical decimal text (`Decimal.IntCanonical`) |
| MbClient.PrivateHeadNonce | src/client.rs:345 | the nonce entry of a private call's list is exactly `("tapi_nonce", NonceText(nonce))`: no padding, no `-0` |
| MbClient.BoolToString | src/client.rs:347 | `true` and `false` exactly for the two booleans |
| MbClient.OrderbookParams | src/client.rs:343-348 | keys are tapi_method, tapi_nonce, coin_pair, full in that order; method `list_orderbook`, the canonical decimal nonce, the pair, and `true` or `false` for the flag |
| MbClient.PlaceOrderParams | src/client.rs:412-418 | keys are tapi_method, tapi_nonce, coin_pair, quantity, limit_price in that order; the side's method name, the canonical decimal nonce and the given strings |
| MbClient.AccountInfoParams | src/client.rs:510-513 | keys are tapi_method then tapi_nonce; method `get_account_info` and the canonical decimal nonce |
| MbClient.PrivateRequest | src/client.rs:350-357 | POST to the private URL with the identifier header; the body reads back as the parameter list, and the MAC header is the hex of the MAC over `/tapi/v3/?` followed by exactly that body |
| MbClient.SignedForUnique | src/client.rs:350-357 | two signed POSTs of the same list by the same client are identical, so the request contract fixes body and MAC exactly |
| MbClient.OrderbookRequest | src/client.rs:336-357 | the signed POST of the orderbook list: private URL, identifier, body and MAC header as PrivateRequest |
| MbClient.PlaceOrderRequest | src/client.rs:403-427 | the signed POST of the place-order list: private URL, identifier, body and MAC header as PrivateRequest |
| MbClient.PlaceBuyOrderRequest | src/client.rs:441-449 | the signed POST of the Buy place-order list with the pair, quantity and price forwarded unchanged; the list opens with `place_buy_order` and the nonce |
| MbClient.PlaceSellOrderRequest | src/client.rs:453-461 | the signed POST of the Sell place-order list with the pair, quantity and price forwarded unchanged; the list opens with `place_sell_order` and the nonce |
| MbClient.AccountInfoRequest | src/client.rs:507-522 | the signed POST of the account-information list: private URL, identifier, body and MAC header as PrivateRequest |
| MbClient.TickerUri | src/client.rs:246-247 | for any currency, the URI is the public base followed by a path that splits into `""`, the currency's own parts and `ticker`; for a currency without `/` that is `""`, the currency and `ticker` |
| MbClient.TickerUriInjective | src/client.rs:246-247 | different currencies give different ticker URIs |
| MbClient.DaySummaryPath | src/client.rs:282-289 | for any currency, the path splits into `""`, the currency's own parts, `day-summary`, and the decimal year, month and day; for a currency without `/` the currency is one segment |
| MbClient.DaySummaryPathRoundTrip | src/client.rs:282-289 | for a currency without `/` (the BTC, ETH and LTC of src/client.rs:273), the day-summary path reads back as the currency and the date |
| MbClient.DaySummaryPathCanonical | src/client.rs:282-289 | the only path that reads back as a currency and a date is the one written for them, so the fields carry no zero padding |
| MbClient.DaySummaryUri | src/client.rs:277-289 | for any currency, the URI is the public base followed by DaySummaryPath; for a currency without `/` the path's segments are `""`, the currency, `day-summary`, and the unpadded decimal year, month and day, and it reads back as the currency and the date |
| MbClient.MbDateText | src/client.rs:112-113 | for any date text, the text is kept as a prefix and splits at spaces into its own parts followed by the fixed time `23:59:59.004011`; for a text without a space that is the text and the time |
| MbClient.MbDateTextInjective | src/client.rs:112-113 | different date texts give different parser inputs |
| Decimal.NatToString | src/client.rs:282-289 | decimal digits only, and no leading zero except in `0` |
| Decimal.IntToString | src/client.rs:286 | `-` exactly for negative values, then digits with no leading zero except in `0`; the value by `IntRoundTrip` |
| Decimal.IntRoundTrip | src/client.rs:345 | an integer's decimal text reads back as that integer |
| Decimal.NatCanonical | src/client.rs:282-289 | the only text the strict reader takes as a natural number is the text written for it |
| Decimal.IntCanonical | src/client.rs:345 | the only text the strict reader takes as an integer is the text written for it |
| Decimal.ParseIntInjective | src/client.rs:345 | two texts that read as the same integer are the same text |
| Utf8.RoundTrip | src/client.rs:207-210 | decoding a string's bytes gives the string back |
| Utf8.Injective | src/client.rs:207-210 | different strings have different bytes |
| Utf8.Encode | src/client.rs:207-210 | one to four bytes per character |
| Utf8.Canonical | src/client.rs:207-210 | the only bytes that decode to a string are that string's encoding |
| Hex.Encode | src/client.rs:214 | two lowercase hex digits per byte |
| Hex.RoundTrip | src/client.rs:214 | reading the hex text gives the bytes back |
| Hex.Canonical | src/client.rs:214 | the only text that reads as a byte string is its lowercase hex |
| FormUrlencoded.EncodeString | src/client.rs:203 | an encoded name or value contains neither `&` nor `=` |
| FormUrlencoded.Serialize | src/client.rs:203 | empty exactly for the empty list |
| FormUrlencoded.EncodePair | src/client.rs:203 | no `&`, and split at `=` it gives exactly the encoded name and the encoded value |
| FormUrlencoded.ByteSerialize | src/client.rs:203 | one to three characters per byte, each an unreserved character, `+` or `%` |
| FormUrlencoded.RoundTrip | src/client.rs:203 | parsing the serialized list gives the list back, in order |
| FormUrlencoded.Injective | src/client.rs:203 | different lists serialize differently |
| FormUrlencoded.Canonical | src/client.rs:203 | the only text the strict reader takes as a list is that list's serialization |
| FormUrlencoded.SerializePlain | src/client.rs:203 | on unreserved ASCII text the serializer only adds `=` and `&` |
| ClientExamples.DaySummaryOf20210304 | src/client.rs:282-289 | 2021-03-04 gives `<base>/<currency>/day-summary/2021/3/4`, for example `<base>/BTC/day-summary/2021/3/4` |
| ClientExamples.AccountInfoSigningInput | src/client.rs:510-515 | the account-information call signs `tapi_method=get_account_info&tapi_nonce=<nonce>` |
| ClientExamples.PlaceBuyOrderSigningInput | src/client.rs:412-420 | a buy of `1.50000000` at `200.12` on BRLBTC signs those strings unescaped, in the list's order |
| ClientExamples.EscapedValue | src/client.rs:203 | a space is written `+` and a slash `%2F` |

## Left out

- HTTP transport (`reqwest` GET and POST, the form body, the `.json()` decoding, async/await) is I/O. What a call sends is modelled as a `SignedPost` value or a URI string.
- The internals of HMAC-SHA-512 belong to a foreign cryptographic library. The MAC is the uninterpreted parameter `hmac`, so no golden signature vector can be stated. That the signature changes whenever the input changes would need collision resistance, which is not provable here. What is proved is that the input to the MAC changes.
- Floating-point parsing of value-as-string fields (`from_str`) and the `{:.8}` and `{:.2}` formatting of quantity and price are left out. Quantity and price enter as already-formatted strings.
- The wall-clock nonce (`Utc::now().timestamp_nanos()`) is a parameter. Nonce monotonicity across calls is therefore not modelled.
- chrono's date-time parsing of the day-summary date with `FORMAT`, and `ts_milliseconds`, belong to a foreign library. Only the suffix append is modelled.
- The serde record types (Ticker, DaySummary, Orderbook, Order, Balance, account info) have no logic beyond float parsing. The envelope is generic in its payload type instead.
- `failure` display strings and the `From<reqwest::Error>` conversion are message plumbing. `Envelope.Error.RequestError` carries no cause.
- The parsers and decoders (`Decimal.ParseNat`, `Decimal.ParseInt`, `Utf8.Decode`, `FormUrlencoded.Parse`, `Hex.Decode`, `MbClient.ParseDaySummaryPath`) are not in the source. They are strict reading sides written for the round-trip and canonicity lemmas, and they accept only what the encoders write. `ParseDaySummaryPath` does not check that the date exists in the calendar: it reads month 13 just as `DaySummaryPath` would write it.
