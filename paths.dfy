/**
 * The service's fixed constants and the two request-path builders of the
 * client (eiopaPy/client.py, "Constants" and "Path builders").
 */
module Paths {
  import opened Wrappers
  import opened Text

  const API_BASE_URL: string := "https://mehdiechchelh.com/api"

  /** The two curve families the service publishes. */
  const WITH_VA: string := "with_va"
  const NO_VA: string := "no_va"

  const YEAR_KEY: string := "year="
  const MONTH_KEY: string := "month="

  predicate HasPrefix(s: string, p: string) {
    |p| <= |s| && s[..|p|] == p
  }

  lemma BaseHasNoQueryMark()
    ensures '?' !in API_BASE_URL + "/"
  {
    var b := API_BASE_URL + "/";
    assert forall i :: 0 <= i < |b| ==> b[i] != '?';
  }

  /** The field an options path asks about: what follows the base URL and a slash. */
  function OptionsField(path: string): Option<string> {
    if HasPrefix(path, API_BASE_URL + "/") then Some(path[|API_BASE_URL| + 1..]) else None
  }

  /** Path listing the available values of `field`: the field as one segment under the base URL. */
  function PathGetOptions(field: string): (path: string)
    ensures OptionsField(path) == Some(field)
    ensures '?' in path <==> '?' in field
  {
    var path := API_BASE_URL + "/" + field;
    BaseHasNoQueryMark();
    assert path[..|API_BASE_URL| + 1] == API_BASE_URL + "/";
    assert forall i :: |API_BASE_URL| + 1 <= i < |path| ==> path[i] == field[i - |API_BASE_URL| - 1];
    assert forall i :: 0 <= i < |field| ==> field[i] == path[i + |API_BASE_URL| + 1];
    path
  }

  /**
   * The query string of a curve request, stated case by case: nothing when
   * both filters are empty, otherwise "?" then the non-empty filters, year
   * before month, separated by "&".
   */
  function QuerySuffix(year: string, month: string): string {
    if year == "" && month == "" then ""
    else if month == "" then "?" + YEAR_KEY + year
    else if year == "" then "?" + MONTH_KEY + month
    else "?" + YEAR_KEY + year + "&" + MONTH_KEY + month
  }

  /** Reads the year and month filters back out of a query string. */
  function ParseQuery(q: string): Option<(string, string)> {
    if q == "" then Some(("", ""))
    else if q[0] != '?' then None
    else
      var body := q[1..];
      match IndexOf(body, '&')
      case None =>
        if HasPrefix(body, YEAR_KEY) && |body| > |YEAR_KEY| then Some((body[|YEAR_KEY|..], ""))
        else if HasPrefix(body, MONTH_KEY) && |body| > |MONTH_KEY| then Some(("", body[|MONTH_KEY|..]))
        else None
      case Some(i) =>
        var first, second := body[..i], body[i + 1..];
        if HasPrefix(first, YEAR_KEY) && |first| > |YEAR_KEY| && HasPrefix(second, MONTH_KEY) && |second| > |MONTH_KEY|
        then Some((first[|YEAR_KEY|..], second[|MONTH_KEY|..]))
        else None
  }

  /**
   * Path of a curve request: the curve type and the region as two segments,
   * then a query string holding the non-empty filters.
   */
  method PathGetRfr(rfrType: string, region: string, year: string, month: string) returns (path: string)
    ensures path == API_BASE_URL + "/" + rfrType + "/" + region + QuerySuffix(year, month)
  {
    path := API_BASE_URL + "/" + rfrType + "/" + region;
    var params: seq<string> := [];
    if year != "" {
      params := params + [YEAR_KEY + year];
    }
    if month != "" {
      params := params + [MONTH_KEY + month];
    }
    QueryOfParams(year, month, params);
    if params != [] {
      path := path + "?" + Join(params, '&');
    }
  }

  /** The "&"-joined list of non-empty filters, behind a "?", is the query string. */
  lemma QueryOfParams(year: string, month: string, params: seq<string>)
    requires params == (if year != "" then [YEAR_KEY + year] else []) + (if month != "" then [MONTH_KEY + month] else [])
    ensures QuerySuffix(year, month) == if params == [] then "" else "?" + Join(params, '&')
  {
    if year != "" && month != "" {
      assert params == [YEAR_KEY + year, MONTH_KEY + month];
      JoinPair(YEAR_KEY + year, MONTH_KEY + month, '&');
    } else if year != "" {
      assert params == [YEAR_KEY + year];
    } else if month != "" {
      assert params == [MONTH_KEY + month];
    }
  }

  /**
   * A query string is present exactly when some filter is non-empty, and then
   * it starts with "?"; an empty filter adds neither its key nor a separator.
   */
  lemma QueryMarkIff(year: string, month: string)
    ensures QuerySuffix(year, month) != "" <==> year != "" || month != ""
    ensures QuerySuffix(year, month) != "" ==> QuerySuffix(year, month)[0] == '?'
    ensures '?' !in year && '?' !in month ==> ('?' in QuerySuffix(year, month) <==> year != "" || month != "")
    ensures '&' !in year && '&' !in month ==> ('&' in QuerySuffix(year, month) <==> year != "" && month != "")
  {
    var q := QuerySuffix(year, month);
    if q != "" && '?' !in year && '?' !in month {
      assert q[0] == '?';
      if month == "" {
        assert q == "?" + YEAR_KEY + year;
      }
    }
  }

  /** The query string reads back as the two filters it was built from. */
  lemma ParseQueryRoundTrip(year: string, month: string)
    requires '&' !in year && '&' !in month
    ensures ParseQuery(QuerySuffix(year, month)) == Some((year, month))
  {
    KeyedFilter(YEAR_KEY, year);
    KeyedFilter(MONTH_KEY, month);
    if year != "" && month != "" {
      ParseBothFilters(year, month);
    } else if year != "" {
      assert QuerySuffix(year, month)[1..] == YEAR_KEY + year;
    } else if month != "" {
      var body := MONTH_KEY + month;
      assert QuerySuffix(year, month)[1..] == body;
      assert !HasPrefix(body, YEAR_KEY) by {
        assert body[0] == 'm';
      }
    }
  }

  /** A filter behind its key: the key is a prefix, the value follows it, no "&" appears. */
  lemma KeyedFilter(key: string, value: string)
    requires '&' !in key && '&' !in value
    ensures '&' !in key + value
    ensures HasPrefix(key + value, key) && (key + value)[|key|..] == value
  {
    var kv := key + value;
    assert kv[..|key|] == key;
    forall i | 0 <= i < |kv|
      ensures kv[i] != '&'
    {
      if i < |key| {
        assert kv[i] == key[i];
      } else {
        assert kv[i] == value[i - |key|];
      }
    }
  }

  lemma ParseBothFilters(year: string, month: string)
    requires year != "" && month != ""
    requires '&' !in YEAR_KEY + year
    requires HasPrefix(YEAR_KEY + year, YEAR_KEY) && (YEAR_KEY + year)[|YEAR_KEY|..] == year
    requires HasPrefix(MONTH_KEY + month, MONTH_KEY) && (MONTH_KEY + month)[|MONTH_KEY|..] == month
    ensures ParseQuery(QuerySuffix(year, month)) == Some((year, month))
  {
    var first, second := YEAR_KEY + year, MONTH_KEY + month;
    var body := first + ['&'] + second;
    assert QuerySuffix(year, month)[1..] == body;
    IndexOfSeparator(first, '&', second);
    assert body[..|first|] == first;
    assert body[|first| + 1..] == second;
  }
}
