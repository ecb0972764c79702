/** Concrete requests, worked out in full. */
module ClientExamples {
  import opened Codes
  import Decimal
  import Utf8
  import FormUrlencoded
  import opened MbClient

  lemma Year2021Text()
    ensures Decimal.IntToString(2021) == "2021"
  {
    assert Decimal.NatToString(2) == "2";
    assert Decimal.NatToString(20) == "20";
    assert Decimal.NatToString(202) == "202";
  }

  /**
   * The summary of 4 March 2021 is asked for at
   * `<base>/<currency>/day-summary/2021/3/4`, `<base>/BTC/day-summary/2021/3/4` for bitcoin.
   */
  lemma DaySummaryOf20210304(base: string, currency: string)
    ensures DaySummaryUri(InitPublic(base), currency, Date(2021, 3, 4))
         == base + "/" + currency + "/day-summary/" + "2021" + "/" + "3" + "/" + "4"
  {
    Year2021Text();
    assert Decimal.NatToString(3) == "3" && Decimal.NatToString(4) == "4";
  }

  lemma NonceIsPlain(nonce: i64)
    ensures FormUrlencoded.IsPlain(NonceText(nonce))
  {
  }

  lemma AccountInfoIsPlain(nonce: i64)
    ensures FormUrlencoded.IsPlainQuery(AccountInfoParams(nonce))
  {
    NonceIsPlain(nonce);
    assert FormUrlencoded.IsPlain("tapi_method") && FormUrlencoded.IsPlain("get_account_info");
    assert FormUrlencoded.IsPlain("tapi_nonce");
  }

  /** The account-information call signs its method, then its nonce, unescaped. */
  lemma AccountInfoSigningInput(nonce: i64)
    ensures SigningInput(AccountInfoParams(nonce))
         == ApiVersionPath + "?" + FormUrlencoded.PlainText([("tapi_method", "get_account_info"), ("tapi_nonce", NonceText(nonce))])
  {
    AccountInfoIsPlain(nonce);
    FormUrlencoded.SerializePlain(AccountInfoParams(nonce));
  }

  lemma PlaceOrderNamesArePlain()
    ensures FormUrlencoded.IsPlain("tapi_method") && FormUrlencoded.IsPlain("place_buy_order") && FormUrlencoded.IsPlain("tapi_nonce")
    ensures FormUrlencoded.IsPlain("coin_pair") && FormUrlencoded.IsPlain("quantity") && FormUrlencoded.IsPlain("limit_price")
  {
  }

  lemma PlaceBuyOrderValuesArePlain()
    ensures FormUrlencoded.IsPlain("BRLBTC") && FormUrlencoded.IsPlain("1.50000000") && FormUrlencoded.IsPlain("200.12")
  {
  }

  lemma PlaceBuyOrderIsPlain(nonce: i64)
    ensures FormUrlencoded.IsPlainQuery(PlaceOrderParams(Buy, nonce, "1.50000000", "200.12", "BRLBTC"))
  {
    NonceIsPlain(nonce);
    PlaceOrderNamesArePlain();
    PlaceBuyOrderValuesArePlain();
  }

  /**
   * A buy of quantity 1.5 at price 200.1234, formatted to 1.50000000 and
   * 200.12, is signed over exactly these pairs, in this order, unescaped.
   */
  lemma PlaceBuyOrderSigningInput(nonce: i64)
    ensures SigningInput(PlaceOrderParams(Buy, nonce, "1.50000000", "200.12", "BRLBTC"))
         == ApiVersionPath + "?" + FormUrlencoded.PlainText(
              [("tapi_method", "place_buy_order"), ("tapi_nonce", NonceText(nonce)), ("coin_pair", "BRLBTC"),
               ("quantity", "1.50000000"), ("limit_price", "200.12")])
  {
    PlaceBuyOrderIsPlain(nonce);
    FormUrlencoded.SerializePlain(PlaceOrderParams(Buy, nonce, "1.50000000", "200.12", "BRLBTC"));
  }

  /** A space becomes `+`; a slash becomes `%2F`. */
  lemma EscapedValue()
    ensures FormUrlencoded.EncodeString("a b/c") == "a+b%2Fc"
  {
    var text := "a b/c";
    var bytes: seq<Utf8.byte> := [0x61, 0x20, 0x62, 0x2F, 0x63];
    assert Utf8.IsAscii(text);
    Utf8.AsciiEncode(text);
    assert Utf8.Encode(text) == bytes;
    assert FormUrlencoded.SerializeByte(0x2F) == "%2F";
    assert FormUrlencoded.ByteSerialize(bytes[3..]) == "%2Fc" by {
      assert bytes[3..][1..] == [0x63];
    }
    assert FormUrlencoded.ByteSerialize(bytes[2..]) == "b%2Fc" by {
      assert bytes[2..][1..] == bytes[3..];
    }
    assert FormUrlencoded.ByteSerialize(bytes[1..]) == "+b%2Fc" by {
      assert bytes[1..][1..] == bytes[2..];
    }
  }
}
