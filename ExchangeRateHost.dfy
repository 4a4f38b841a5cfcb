/** The exchangerate.host client of the grjaznovs application, as an interpreter of
    the responses the service sends back. The HTTP exchange itself is abstracted into
    an `HttpResponse` value: its status and, when present, a body whose fields Jackson
    has already projected into typed values. `HandleError` is the guard chain every
    call goes through; `SupportedCurrencies` and `DirectRate` read their projection
    from the body that survives it. */
module ExchangeRateHost {
  import opened Outcomes
  import opened JavaText
  import opened BigDecimals

  /** Spring's `HttpStatusCode`: the numeric value and, for a standard status, the
      name of its `HttpStatus` constant. */
  datatype HttpStatus = HttpStatus(value: int, name: Option<string>)

  /** `is2xxSuccessful()`: the hundreds digit of the value is 2. */
  predicate Is2xxSuccessful(s: HttpStatus) {
    200 <= s.value <= 299
  }

  /** `toString()`: `"404 NOT_FOUND"` for a standard status, `"499"` otherwise. */
  function StatusText(s: HttpStatus): (r: string)
    ensures IntToString(s.value) <= r
  {
    IntToString(s.value) + (if s.name.Some? then " " + s.name.value else "")
  }

  /** The JSON value found under `"success"`. Floating-point numbers are not modelled. */
  datatype JsonNode =
    | JsonNull
    | JsonBoolean(flag: bool)
    | JsonInteger(number: int)
    | JsonText(text: string)
    | JsonContainer          // an array or an object

  /** Jackson's `JsonNode.asBoolean()`: a boolean is itself, an integer is true unless
      it is zero, a text is true when it trims to `"true"`, anything else is false. */
  predicate AsBoolean(n: JsonNode) {
    match n
    case JsonBoolean(b) => b
    case JsonInteger(i) => i != 0
    case JsonText(t) => Trim(t) == "true"
    case _ => false
  }

  /** `ErrorProjection.ErrorDetails`: `None` is a JSON null or an absent field. */
  datatype ErrorDetails = ErrorDetails(code: Option<int>, info: Option<string>)

  /** The fields of a response body the client reads. `success` is `None` when the
      field is absent; each projected field is `None` when it is absent or null; a
      quote whose value is null is `None` inside the map. */
  datatype ResponseBody = ResponseBody(
    success: Option<JsonNode>,
    error: Option<ErrorDetails>,
    currencies: Option<map<string, string>>,
    quotes: Option<map<string, Option<Decimal>>>)

  datatype HttpResponse = HttpResponse(status: HttpStatus, body: Option<ResponseBody>)

  const StatusPrefix: string := "Currency exchange service responded with status "
  const BodyMissingMessage: string := "Currency exchange service response body is missing"
  const ListFailurePrefix: string := "Currency exchange service failed to return list of supported currencies"
  const QuotesFailurePrefix: string := "Currency exchange service failed to return quotes"
  const NoCurrenciesMessage: string := "Currency exchange service did not return any supported currencies"
  const MoreThanOneQuoteMessage: string := "Currency exchange service returned more than one quote"
  const NoQuotesMessage: string := "Currency exchange service did not return any quotes"

  /** `%s` of a possibly null `Integer` or `String`. */
  function ShowCode(code: Option<int>): string {
    if code.Some? then IntToString(code.value) else "null"
  }

  function ShowInfo(info: Option<string>): string {
    if info.Some? then info.value else "null"
  }

  /** The message of a response that reports a failure. */
  function FailureMessage(messageForErrorCode: string, error: ErrorDetails): (r: string)
    ensures messageForErrorCode + ". Reason code: " <= r
  {
    messageForErrorCode + ". Reason code: " + ShowCode(error.code)
      + ". Reason description: " + ShowInfo(error.info)
  }

  /** `isFailure`: `success` read with `asBoolean()` is false; an absent field
      dereferences null. */
  function IsFailure(body: ResponseBody): (r: Result<bool>)
    ensures r.Err? <==> body.success.None?
    ensures r.Err? ==> r.failure == NullReference
    ensures r.Ok? ==> (r.value <==> !AsBoolean(body.success.value))
  {
    if body.success.None? then Err(NullReference) else Ok(!AsBoolean(body.success.value))
  }

  /** `handleError`: the status, then the presence of a body, then the success flag;
      a body that passes all three is handed on. */
  function HandleError(response: HttpResponse, messageForErrorCode: string): (r: Result<ResponseBody>)
    ensures !Is2xxSuccessful(response.status) ==>
              r == Err(ExchangeServiceError(StatusPrefix + StatusText(response.status)))
    ensures Is2xxSuccessful(response.status) && response.body.None? ==>
              r == Err(ExchangeServiceError(BodyMissingMessage))
    ensures r.Ok? <==>
              Is2xxSuccessful(response.status) && response.body.Some?
              && response.body.value.success.Some? && AsBoolean(response.body.value.success.value)
    ensures r.Ok? ==> r.value == response.body.value
    ensures r.Err? && r.failure.ExchangeServiceError? && Is2xxSuccessful(response.status)
            && response.body.Some? ==>
              messageForErrorCode + ". Reason code: " <= r.failure.message
    ensures r.Err? ==> r.failure.ExchangeServiceError? || r.failure == NullReference
    ensures Is2xxSuccessful(response.status) && response.body.Some?
            && response.body.value.success.None? ==>
              r == Err(NullReference)
    ensures Is2xxSuccessful(response.status) && response.body.Some?
            && response.body.value.success.Some? && !AsBoolean(response.body.value.success.value)
            && response.body.value.error.None? ==>
              r == Err(NullReference)
    ensures Is2xxSuccessful(response.status) && response.body.Some?
            && response.body.value.success.Some? && !AsBoolean(response.body.value.success.value)
            && response.body.value.error.Some? ==>
              r == Err(ExchangeServiceError(messageForErrorCode + ". Reason code: "
                     + ShowCode(response.body.value.error.value.code)
                     + ". Reason description: " + ShowInfo(response.body.value.error.value.info)))
  {
    if !Is2xxSuccessful(response.status) then
      Err(ExchangeServiceError(StatusPrefix + StatusText(response.status)))
    else if response.body.None? then
      Err(ExchangeServiceError(BodyMissingMessage))
    else
      var body := response.body.value;
      var failed :- IsFailure(body);
      if !failed then Ok(body)
      else if body.error.None? then Err(NullReference)
      else Err(ExchangeServiceError(FailureMessage(messageForErrorCode, body.error.value)))
  }

  /** How `asBoolean()` reads the values a service may put under `"success"`: only the
      exact text `true`, up to surrounding blanks, counts as true among texts; an
      explicit JSON null is a failure rather than a null dereference. */
  lemma AsBooleanReadings()
    ensures AsBoolean(JsonText(" true\n")) && !AsBoolean(JsonText("True"))
    ensures !AsBoolean(JsonText("yes")) && !AsBoolean(JsonText(""))
    ensures AsBoolean(JsonInteger(-1)) && !AsBoolean(JsonInteger(0))
    ensures !AsBoolean(JsonNull) && !AsBoolean(JsonContainer)
  {
    assert TrimStart(" true\n") == "true\n";
    assert TrimEnd("true\n") == "true";
  }

  /** `getSupportedCurrencies`: the listed codes that are ISO 4217 codes known to the
      platform (`isoCodes` stands for `Currency.getAvailableCurrencies()`). */
  function SupportedCurrencies(response: HttpResponse, isoCodes: set<string>): (r: Result<set<string>>)
    ensures HandleError(response, ListFailurePrefix).Err? ==>
              r == HandleError(response, ListFailurePrefix).PropagateFailure()
    ensures r.Ok? <==>
              HandleError(response, ListFailurePrefix).Ok?
              && response.body.value.currencies.Some? && |response.body.value.currencies.value| > 0
    ensures HandleError(response, ListFailurePrefix).Ok? && response.body.value.currencies.Some?
            && |response.body.value.currencies.value| == 0 ==>
              r == Err(ExchangeClientError(NoCurrenciesMessage))
    ensures r.Ok? ==> r.value <= isoCodes
    ensures r.Ok? ==>
              forall c :: c in r.value <==> c in response.body.value.currencies.value && c in isoCodes
  {
    var body :- HandleError(response, ListFailurePrefix);
    if body.currencies.None? then Err(NullReference)
    else if |body.currencies.value| == 0 then Err(ExchangeClientError(NoCurrenciesMessage))
    else Ok(set c | c in body.currencies.value && c in isoCodes)
  }

  /** A set of one element has no two different members. */
  lemma SingleKey<K>(keys: set<K>)
    requires |keys| == 1
    ensures forall a, b :: a in keys && b in keys ==> a == b
  {
    forall a, b | a in keys && b in keys ensures a == b {
      assert |keys - {a}| == 0;
    }
  }

  /** `getDirectRate`: the one quote of the response. The key of the quote is not
      compared with the requested pair. */
  function DirectRate(response: HttpResponse): (r: Result<Decimal>)
    ensures HandleError(response, QuotesFailurePrefix).Err? ==>
              r == HandleError(response, QuotesFailurePrefix).PropagateFailure()
    ensures HandleError(response, QuotesFailurePrefix).Ok? && response.body.value.quotes.Some? ==>
              var quotes := response.body.value.quotes.value;
              (|quotes| > 1 ==> r == Err(ExchangeClientError(MoreThanOneQuoteMessage)))
              && (|quotes| == 0 ==> r == Err(ExchangeServiceError(NoQuotesMessage)))
    ensures r.Ok? <==>
              HandleError(response, QuotesFailurePrefix).Ok? && response.body.value.quotes.Some?
              && |response.body.value.quotes.value| == 1
              && forall k :: k in response.body.value.quotes.value ==>
                               response.body.value.quotes.value[k].Some?
    ensures r.Ok? ==>
              forall k :: k in response.body.value.quotes.value ==>
                            response.body.value.quotes.value[k] == Some(r.value)
  {
    var body :- HandleError(response, QuotesFailurePrefix);
    if body.quotes.None? then Err(NullReference)
    else
      var quotes := body.quotes.value;
      if |quotes| > 1 then Err(ExchangeClientError(MoreThanOneQuoteMessage))
      else if |quotes| == 0 then Err(ExchangeServiceError(NoQuotesMessage))
      else
        SingleKey(quotes.Keys);
        var k :| k in quotes;
        if quotes[k].None? then Err(NullReference) else Ok(quotes[k].value)
  }

  /** A response whose status is not 2xx is refused with the same error whatever it carries. */
  lemma StatusCheckedFirst(status: HttpStatus, b1: Option<ResponseBody>, b2: Option<ResponseBody>, prefix: string)
    requires !Is2xxSuccessful(status)
    ensures HandleError(HttpResponse(status, b1), prefix) == HandleError(HttpResponse(status, b2), prefix)
    ensures SupportedCurrencies(HttpResponse(status, b1), {}) == DirectRate(HttpResponse(status, b2)).PropagateFailure()
  {
  }

  /** The failure prefixes of the two calls differ, so a service failure message names
      the call that failed. */
  lemma FailureMessageNamesCall(e1: ErrorDetails, e2: ErrorDetails)
    ensures FailureMessage(ListFailurePrefix, e1) != FailureMessage(QuotesFailurePrefix, e2)
  {
    var m1, m2 := FailureMessage(ListFailurePrefix, e1), FailureMessage(QuotesFailurePrefix, e2);
    assert m1[43] == ListFailurePrefix[43] == 'l';
    assert m2[43] == QuotesFailurePrefix[43] == 'q';
  }

  /** The emptiness check precedes the filter: a list of unknown codes only is not an
      error but an empty set. */
  lemma OnlyUnknownCodesGiveNoCurrencies(response: HttpResponse, isoCodes: set<string>)
    requires HandleError(response, ListFailurePrefix).Ok?
    requires response.body.value.currencies.Some? && |response.body.value.currencies.value| > 0
    requires forall c :: c in response.body.value.currencies.value ==> c !in isoCodes
    ensures SupportedCurrencies(response, isoCodes) == Ok({})
  {
    var r := SupportedCurrencies(response, isoCodes);
    assert r.Ok?;
    assert forall c :: c !in r.value;
    assert r.value == {};
  }

  /** The text of a three-digit reason code. */
  lemma ThreeDigitCode(n: int)
    requires 100 <= n < 1000
    ensures IntToString(n) == [DigitChar(n / 100), DigitChar(n / 10 % 10), DigitChar(n % 10)]
  {
    assert NatToString(n / 10) == NatToString(n / 100) + [DigitChar(n / 10 % 10)];
  }

  function SuccessBody(currencies: Option<map<string, string>>, quotes: Option<map<string, Option<Decimal>>>): ResponseBody {
    ResponseBody(Some(JsonBoolean(true)), None, currencies, quotes)
  }

  function FailureBody(code: int, info: string): ResponseBody {
    ResponseBody(Some(JsonBoolean(false)), Some(ErrorDetails(Some(code), Some(info))), None, None)
  }

  const Ok200: HttpStatus := HttpStatus(200, Some("OK"))

  /** A failed listing of the usage-limit kind: code 104 and its description. */
  lemma ListFailureExample()
    ensures SupportedCurrencies(HttpResponse(Ok200, Some(FailureBody(104, "Monthly allowance reached"))), {"EUR"})
         == Err(ExchangeServiceError(
              ListFailurePrefix + ". Reason code: " + "104" + ". Reason description: " + "Monthly allowance reached"))
  {
    var info := "Monthly allowance reached";
    ThreeDigitCode(104);
    assert [DigitChar(1), DigitChar(0), DigitChar(4)] == "104";
    var response := HttpResponse(Ok200, Some(FailureBody(104, info)));
    assert HandleError(response, ListFailurePrefix)
        == Err(ExchangeServiceError(FailureMessage(ListFailurePrefix, ErrorDetails(Some(104), Some(info)))));
    assert FailureMessage(ListFailurePrefix, ErrorDetails(Some(104), Some(info)))
        == ListFailurePrefix + ". Reason code: " + "104" + ". Reason description: " + info;
  }

  /** A successful listing supports exactly the listed codes that are ISO codes. */
  lemma SuccessfulListing(listing: map<string, string>, isoCodes: set<string>)
    requires |listing| > 0
    ensures SupportedCurrencies(HttpResponse(Ok200, Some(SuccessBody(Some(listing), None))), isoCodes)
         == Ok(listing.Keys * isoCodes)
  {
    var r := SupportedCurrencies(HttpResponse(Ok200, Some(SuccessBody(Some(listing), None))), isoCodes);
    assert r.Ok?;
    assert r.value == listing.Keys * isoCodes;
  }

  /** A listing of BOB, BRL, BSD and BTC supports the three ISO codes; BTC is dropped. */
  lemma SupportedCurrenciesExample()
    ensures SupportedCurrencies(
              HttpResponse(Ok200, Some(SuccessBody(
                Some(map["BOB" := "Bolivian Boliviano", "BRL" := "Brazilian Real",
                         "BSD" := "Bahamian Dollar", "BTC" := "Bitcoin"]), None))),
              {"BOB", "BRL", "BSD", "EUR", "USD"})
         == Ok({"BOB", "BRL", "BSD"})
  {
    var listing := map["BOB" := "Bolivian Boliviano", "BRL" := "Brazilian Real",
                        "BSD" := "Bahamian Dollar", "BTC" := "Bitcoin"];
    assert "BOB" in listing;
    SuccessfulListing(listing, {"BOB", "BRL", "BSD", "EUR", "USD"});
    assert listing.Keys == {"BOB", "BRL", "BSD", "BTC"};
    assert "BTC"[1] != "BOB"[1] && "BTC"[1] != "BRL"[1] && "BTC"[2] != "BSD"[2];
    assert "BTC"[0] != "EUR"[0] && "BTC"[0] != "USD"[0];
    assert listing.Keys * {"BOB", "BRL", "BSD", "EUR", "USD"} == {"BOB", "BRL", "BSD"};
  }

  /** The single quote EURUSD = 1.0952 is the rate. */
  lemma DirectRateExample()
    ensures DirectRate(HttpResponse(Ok200, Some(SuccessBody(None, Some(map["EURUSD" := Some(Decimal(10952, 4))])))))
         == Ok(Decimal(10952, 4))
  {
    var quotes := map["EURUSD" := Some(Decimal(10952, 4))];
    assert |quotes| == 1;
  }

  /** A failed quote request with code 201 names the quotes call. */
  lemma QuotesFailureExample()
    ensures DirectRate(HttpResponse(Ok200, Some(FailureBody(201, "Invalid source currency"))))
         == Err(ExchangeServiceError(
              QuotesFailurePrefix + ". Reason code: " + "201" + ". Reason description: " + "Invalid source currency"))
  {
    var info := "Invalid source currency";
    ThreeDigitCode(201);
    assert [DigitChar(2), DigitChar(0), DigitChar(1)] == "201";
    var response := HttpResponse(Ok200, Some(FailureBody(201, info)));
    assert HandleError(response, QuotesFailurePrefix)
        == Err(ExchangeServiceError(FailureMessage(QuotesFailurePrefix, ErrorDetails(Some(201), Some(info)))));
    assert FailureMessage(QuotesFailurePrefix, ErrorDetails(Some(201), Some(info)))
        == QuotesFailurePrefix + ". Reason code: " + "201" + ". Reason description: " + info;
  }

  /** Two quotes are refused whatever their values. */
  lemma TwoQuotesRefused(a: Decimal, b: Decimal)
    ensures DirectRate(HttpResponse(Ok200, Some(SuccessBody(None, Some(map["EURUSD" := Some(a), "EURGBP" := Some(b)])))))
         == Err(ExchangeClientError(MoreThanOneQuoteMessage))
  {
    var quotes := map["EURUSD" := Some(a), "EURGBP" := Some(b)];
    assert quotes.Keys == {"EURUSD", "EURGBP"};
    assert |quotes| == 2;
  }
}
