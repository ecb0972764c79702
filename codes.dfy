/**
 * The closed numeric enumerations of the Mercado Bitcoin trade API: the
 * response status codes, the order side and the order status. Each is read
 * from its JSON number by `serde_repr`, which accepts only the listed
 * discriminants.
 */
module Codes {
  import opened Wrappers
  import Utf8

  type u8 = Utf8.byte
  type u32 = x: int | 0 <= x < 0x1_0000_0000

  /** The status codes the exchange documents, one variant per code. */
  datatype ApiStatus =
    | Success
    | TradingHalted
    | PostRequestRequired
    | InvalidTapiID
    | InvalidTapiMac
    | InvalidTapiNonce
    | InvalidTapiMethod
    | InvalidParam
    | RequestLimitExceeded
    | InvalidRequest
    | RequestBlocked
    | InternalError
    | ReadOnlyKey
    | InvalidCoinPair
    | InsuficientBrlBalance
    | InsuficientBitcoinBalance
    | InsuficientLitecoinBalance
    | InsuficientBCashBalance
    | InsuficientXRPBalance
    | InsuficientEthereumBalance
    | InvalidBitcoinQuantity
    | InvalidLitecoinQuantity
    | InvalidBCashQuantity
    | InvalidXRPQuantity
    | InvalidEthereumQuantity
    | InvalidPrice
    | InvalidDecimalCases
    | OrderProcessing
  {
    /** The variant's discriminant, the number the API sends. */
    function Code(): u32 {
      match this
      case Success => 100
      case TradingHalted => 199
      case PostRequestRequired => 200
      case InvalidTapiID => 201
      case InvalidTapiMac => 202
      case InvalidTapiNonce => 203
      case InvalidTapiMethod => 204
      case InvalidParam => 206
      case RequestLimitExceeded => 429
      case InvalidRequest => 430
      case RequestBlocked => 431
      case InternalError => 500
      case ReadOnlyKey => 211
      case InvalidCoinPair => 205
      case InsuficientBrlBalance => 207
      case InsuficientBitcoinBalance => 215
      case InsuficientLitecoinBalance => 216
      case InsuficientBCashBalance => 232
      case InsuficientXRPBalance => 240
      case InsuficientEthereumBalance => 243
      case InvalidBitcoinQuantity => 222
      case InvalidLitecoinQuantity => 223
      case InvalidBCashQuantity => 234
      case InvalidXRPQuantity => 242
      case InvalidEthereumQuantity => 245
      case InvalidPrice => 224
      case InvalidDecimalCases => 227
      case OrderProcessing => 432
    }
  }

  /** The 28 documented codes, listed in ascending order. */
  const KnownCodes: set<u32> := {
    100, 199, 200, 201, 202, 203, 204, 205, 206, 207, 211, 215, 216, 222,
    223, 224, 227, 232, 234, 240, 242, 243, 245, 429, 430, 431, 432, 500
  }

  /** The variant whose discriminant is `n`, or None for any other number. */
  function DecodeApiStatus(n: u32): (r: Option<ApiStatus>)
    ensures r.Some? <==> n in KnownCodes
    ensures r.Some? ==> r.value.Code() == n
  {
    match n
    case 100 => Some(Success)
    case 199 => Some(TradingHalted)
    case 200 => Some(PostRequestRequired)
    case 201 => Some(InvalidTapiID)
    case 202 => Some(InvalidTapiMac)
    case 203 => Some(InvalidTapiNonce)
    case 204 => Some(InvalidTapiMethod)
    case 206 => Some(InvalidParam)
    case 429 => Some(RequestLimitExceeded)
    case 430 => Some(InvalidRequest)
    case 431 => Some(RequestBlocked)
    case 500 => Some(InternalError)
    case 211 => Some(ReadOnlyKey)
    case 205 => Some(InvalidCoinPair)
    case 207 => Some(InsuficientBrlBalance)
    case 215 => Some(InsuficientBitcoinBalance)
    case 216 => Some(InsuficientLitecoinBalance)
    case 232 => Some(InsuficientBCashBalance)
    case 240 => Some(InsuficientXRPBalance)
    case 243 => Some(InsuficientEthereumBalance)
    case 222 => Some(InvalidBitcoinQuantity)
    case 223 => Some(InvalidLitecoinQuantity)
    case 234 => Some(InvalidBCashQuantity)
    case 242 => Some(InvalidXRPQuantity)
    case 245 => Some(InvalidEthereumQuantity)
    case 224 => Some(InvalidPrice)
    case 227 => Some(InvalidDecimalCases)
    case 432 => Some(OrderProcessing)
    case _ => None
  }

  /** Every variant is read back from its own code. */
  lemma DecodeCode(s: ApiStatus)
    ensures s.Code() in KnownCodes
    ensures DecodeApiStatus(s.Code()) == Some(s)
  {
  }

  /** No two variants share a code. */
  lemma CodesDistinct(s: ApiStatus, t: ApiStatus)
    requires s.Code() == t.Code()
    ensures s == t
  {
    DecodeCode(s);
    DecodeCode(t);
  }

  /** The only code that decodes to Success is 100. */
  lemma SuccessCode(n: u32)
    ensures DecodeApiStatus(n) == Some(Success) <==> n == 100
  {
  }

  /** The side of an order. */
  datatype OrderType = Buy | Sell {
    function Code(): u8 {
      match this
      case Buy => 1
      case Sell => 2
    }

    /** The private API method that places an order on this side. */
    function PlaceOrderName(): (r: string)
      ensures r == "place_" + (if this == Buy then "buy" else "sell") + "_order"
    {
      match this
      case Buy => "place_buy_order"
      case Sell => "place_sell_order"
    }
  }

  function DecodeOrderType(n: u8): (r: Option<OrderType>)
    ensures r.Some? <==> n in {1, 2}
    ensures r.Some? ==> r.value.Code() == n
  {
    match n
    case 1 => Some(Buy)
    case 2 => Some(Sell)
    case _ => None
  }

  /** The two sides place orders through different methods, and each side round-trips its code. */
  lemma OrderTypeFacts(t: OrderType, u: OrderType)
    ensures DecodeOrderType(t.Code()) == Some(t)
    ensures t.PlaceOrderName() == u.PlaceOrderName() <==> t == u
  {
  }

  /** The lifecycle status of an order. */
  datatype OrderStatus = Open | Cancelled | Filled {
    function Code(): u8 {
      match this
      case Open => 2
      case Cancelled => 3
      case Filled => 4
    }
  }

  function DecodeOrderStatus(n: u8): (r: Option<OrderStatus>)
    ensures r.Some? <==> 2 <= n <= 4
    ensures r.Some? ==> r.value.Code() == n
  {
    match n
    case 2 => Some(Open)
    case 3 => Some(Cancelled)
    case 4 => Some(Filled)
    case _ => None
  }

  lemma OrderStatusRoundTrip(s: OrderStatus)
    ensures DecodeOrderStatus(s.Code()) == Some(s)
  {
  }
}
