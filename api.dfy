/**
 * The public operations of the client (eiopaPy/client.py, "Public API"):
 * argument validation, normalisation of the year and month filters, the
 * request path, and the parse of the service's reply.
 *
 * The HTTP exchange itself is not modelled: each operation receives the
 * transport's reply as a parameter and returns, beside its result, the URL
 * it handed to the transport (None when it sent nothing).
 */
module Api {
  import opened Wrappers
  import opened Text
  import opened Paths
  import opened Parser

  /** A year or month argument: None, one int, or a list or tuple of ints. */
  datatype Filter = Absent | Single(value: int) | Many(values: seq<int>)

  /** The values a filter asks for, in order. */
  function Requested(f: Filter): seq<int> {
    match f
    case Absent => []
    case Single(v) => [v]
    case Many(vs) => vs
  }

  /** The str() of each value; ParseAllDecimals reads them back. */
  function Decimals(vs: seq<int>): seq<string> {
    seq(|vs|, i requires 0 <= i < |vs| => IntToDecimal(vs[i]))
  }

  /**
   * The filter as the query string carries it: "" for None, str() of a single
   * value, and the str() of each element joined by "," for a list. It is
   * empty (so the filter is left out of the query) exactly when the filter
   * asks for nothing, and it never holds the query's own separators.
   */
  function FilterString(f: Filter): (s: string)
    ensures s == "" <==> Requested(f) == []
    ensures '&' !in s && '?' !in s
  {
    match f
    case Absent => ""
    case Single(v) =>
      DecimalAlphabet(v, '&');
      DecimalAlphabet(v, '?');
      IntToDecimal(v)
    case Many(vs) =>
      DecimalsAvoid(vs, '&');
      DecimalsAvoid(vs, '?');
      Join(Decimals(vs), ',')
  }

  lemma DecimalsAvoid(vs: seq<int>, c: char)
    requires !IsDigit(c) && c != '-'
    ensures forall i :: 0 <= i < |vs| ==> c !in IntToDecimal(vs[i])
  {
    forall i | 0 <= i < |vs|
      ensures c !in IntToDecimal(vs[i])
    {
      DecimalAlphabet(vs[i], c);
    }
  }

  /** Reads a filter string back as its list of values. */
  function DecodeFilter(s: string): Option<seq<int>> {
    if s == "" then Some([]) else ParseAll(Split(s, ','))
  }

  function ParseAll(parts: seq<string>): Option<seq<int>> {
    if parts == [] then Some([])
    else match (ParseInt(parts[0]), ParseAll(parts[1..]))
      case (Some(v), Some(vs)) => Some([v] + vs)
      case _ => None
  }

  lemma {:induction false} ParseAllDecimals(vs: seq<int>)
    ensures ParseAll(Decimals(vs)) == Some(vs)
  {
    if vs != [] {
      IntToDecimalRoundTrip(vs[0]);
      ParseAllDecimals(vs[1..]);
      var ds, rest := Decimals(vs), Decimals(vs[1..]);
      assert ds[0] == IntToDecimal(vs[0]);
      assert forall i :: 0 <= i < |rest| ==> ds[1..][i] == rest[i];
      assert ds[1..] == rest;
      assert vs == [vs[0]] + vs[1..];
    }
  }

  /** The filter string carries exactly the requested values, in order. */
  lemma FilterRoundTrip(f: Filter)
    ensures DecodeFilter(FilterString(f)) == Some(Requested(f))
  {
    match f
    case Absent =>
    case Single(v) =>
      var s := IntToDecimal(v);
      IntToDecimalRoundTrip(v);
      DecimalAlphabet(v, ',');
      assert ParseAll([s][1..]) == Some([]);
      assert [v] + [] == [v];
    case Many(vs) =>
      if vs != [] {
        var ds := Decimals(vs);
        forall i | 0 <= i < |ds| ensures ',' !in ds[i] {
          DecimalAlphabet(vs[i], ',');
        }
        assert ds[0] != "";
        SplitJoin(ds, ',');
        ParseAllDecimals(vs);
      }
  }

  /** The transport's answer to one GET request. */
  datatype Reply<T> = Payload(body: T) | Rejected(status: int) | Unreachable

  datatype Error =
    | InvalidArgument        // empty region, detected before any request
    | RemoteRejected(status: int)
    | RemoteUnreachable
    | MalformedPayload(cause: ParseError)

  /** The transport's contract: a non-2xx status and a network failure are distinct errors. */
  function Delivered<T>(reply: Reply<T>): Result<T, Error> {
    match reply
    case Payload(body) => Success(body)
    case Rejected(status) => Failure(RemoteRejected(status))
    case Unreachable => Failure(RemoteUnreachable)
  }

  /** The URL of a curve request. */
  function RfrUrl(rfrType: string, region: string, year: Filter, month: Filter): string {
    API_BASE_URL + "/" + rfrType + "/" + region + QuerySuffix(FilterString(year), FilterString(month))
  }

  /** What a curve request returns for a reply: transport errors unchanged, a payload parsed. */
  function RfrOutcome<V>(reply: Reply<seq<Record<V>>>): Result<EiopaRfr<V>, Error>
    requires reply.Payload? ==> DataIsSeries(reply.body)
  {
    match Delivered(reply)
    case Failure(e) => Failure(e)
    case Success(raw) =>
      match Parse(raw)
      case Success(rfr) => Success(rfr)
      case Failure(e) => Failure(MalformedPayload(e))
  }

  /**
   * Lists the values the service offers for `field`: one request to the
   * options path, its decoded list returned as is.
   */
  method GetOptions(field: string, reply: Reply<seq<Scalar>>) returns (r: Result<seq<Scalar>, Error>, requested: string)
    ensures requested == PathGetOptions(field)
    ensures OptionsField(requested) == Some(field)
    ensures r == Delivered(reply)
  {
    requested := PathGetOptions(field);
    r := Delivered(reply);
  }

  /**
   * Queries risk-free rate curves. An empty region fails before anything is
   * sent; otherwise the filters are normalised, one request is sent, and its
   * reply is parsed.
   */
  method GetRfr<V>(rfrType: string, region: string, year: Filter, month: Filter, reply: Reply<seq<Record<V>>>)
    returns (r: Result<EiopaRfr<V>, Error>, requested: Option<string>)
    requires reply.Payload? ==> Rectangular(reply.body)
    ensures region == "" ==> r == Failure(InvalidArgument) && requested == None
    ensures region != "" ==> requested == Some(RfrUrl(rfrType, region, year, month))
    ensures region != "" ==> r == RfrOutcome(reply)
  {
    if region == "" {
      return Failure(InvalidArgument), None;
    }

    var yearStr := "";
    if !year.Absent? {
      if year.Many? {
        yearStr := Join(Decimals(year.values), ',');
      } else {
        yearStr := IntToDecimal(year.value);
      }
    }

    var monthStr := "";
    if !month.Absent? {
      if month.Many? {
        monthStr := Join(Decimals(month.values), ',');
      } else {
        monthStr := IntToDecimal(month.value);
      }
    }

    var url := PathGetRfr(rfrType, region, yearStr, monthStr);
    requested := Some(url);
    match Delivered(reply) {
      case Failure(e) =>
        r := Failure(e);
      case Success(raw) =>
        var parsed := ParseRfr(raw);
        match parsed {
          case Success(rfr) => r := Success(rfr);
          case Failure(e) => r := Failure(MalformedPayload(e));
        }
    }
  }

  /** get_rfr with the curve type fixed to "with_va". */
  method GetRfrWithVa<V>(region: string, year: Filter, month: Filter, reply: Reply<seq<Record<V>>>)
    returns (r: Result<EiopaRfr<V>, Error>, requested: Option<string>)
    requires reply.Payload? ==> Rectangular(reply.body)
    ensures region == "" ==> r == Failure(InvalidArgument) && requested == None
    ensures region != "" ==> requested == Some(RfrUrl(WITH_VA, region, year, month))
    ensures region != "" ==> r == RfrOutcome(reply)
  {
    r, requested := GetRfr(WITH_VA, region, year, month, reply);
  }

  /** get_rfr with the curve type fixed to "no_va". */
  method GetRfrNoVa<V>(region: string, year: Filter, month: Filter, reply: Reply<seq<Record<V>>>)
    returns (r: Result<EiopaRfr<V>, Error>, requested: Option<string>)
    requires reply.Payload? ==> Rectangular(reply.body)
    ensures region == "" ==> r == Failure(InvalidArgument) && requested == None
    ensures region != "" ==> requested == Some(RfrUrl(NO_VA, region, year, month))
    ensures region != "" ==> r == RfrOutcome(reply)
  {
    r, requested := GetRfr(NO_VA, region, year, month, reply);
  }

  /**
   * The requested URL names the curve type and region as segments and its
   * query string reads back as exactly the requested years and months.
   */
  lemma RfrUrlCarriesFilters(rfrType: string, region: string, year: Filter, month: Filter)
    ensures var q := QuerySuffix(FilterString(year), FilterString(month));
      && RfrUrl(rfrType, region, year, month) == API_BASE_URL + "/" + rfrType + "/" + region + q
      && (q == "" <==> Requested(year) == [] && Requested(month) == [])
      && ParseQuery(q).Some?
      && DecodeFilter(ParseQuery(q).value.0) == Some(Requested(year))
      && DecodeFilter(ParseQuery(q).value.1) == Some(Requested(month))
  {
    var ys, ms := FilterString(year), FilterString(month);
    QueryMarkIff(ys, ms);
    ParseQueryRoundTrip(ys, ms);
    FilterRoundTrip(year);
    FilterRoundTrip(month);
  }

  lemma DocumentedDecimals()
    ensures IntToDecimal(2017) == "2017" && IntToDecimal(2018) == "2018" && IntToDecimal(12) == "12"
  {
    assert NatToDecimal(2) == "2";
    assert NatToDecimal(20) == "20";
    assert NatToDecimal(201) == "201";
    assert NatToDecimal(2017) == "2017";
    assert NatToDecimal(2018) == "2018";
    assert NatToDecimal(1) == "1";
    assert NatToDecimal(12) == "12";
  }

  /** The documented call: years 2017 and 2018, month 12, curves with VA for FR. */
  lemma DocumentedRequest()
    ensures RfrUrl(WITH_VA, "FR", Many([2017, 2018]), Single(12))
         == API_BASE_URL + "/" + WITH_VA + "/FR" + "?year=2017,2018&month=12"
  {
    DocumentedFilters();
    DocumentedQuery();
    var segments := "/" + WITH_VA + "/" + "FR";
    assert segments == "/" + WITH_VA + "/FR";
  }

  lemma DocumentedQuery()
    ensures QuerySuffix("2017,2018", "12") == "?year=2017,2018&month=12"
  {
  }

  lemma DocumentedFilters()
    ensures FilterString(Many([2017, 2018])) == "2017,2018"
    ensures FilterString(Single(12)) == "12"
  {
    DocumentedDecimals();
    var ds := Decimals([2017, 2018]);
    assert ds == ["2017", "2018"];
    assert ds[1..] == ["2018"];
  }
}
