/** The data source adapter (internal/monitor/fetcher.go): the reply of the
    Sina quote endpoint turned into a snapshot, with a synthetic snapshot as the
    fallback whenever the primary source fails. The HTTP exchange itself is a
    parameter: `get` maps a request URL to the reply body, or to `None` when the
    request, the transport or reading the body fails. */
module Fetcher {
  import opened Wrappers
  import opened Stock
  import opened Strings

  /** Why the primary source gave no snapshot. */
  datatype FetchError =
    | RequestFailed  // building the request, the transport, or reading the body
    | BadFormat      // the reply has no `=`
    | Unparseable    // splitting on `=` gave fewer than two parts
    | TooFewFields   // fewer than six comma-separated fields

  /** `strconv.ParseFloat(s, 64)`: a partial parser the model does not interpret. */
  type FloatParser = string -> Option<real>

  /** The cutset the parser trims from both ends of the quoted segment. */
  const QuoteCutset: set<char> := {'"', ';', ' '}

  const QuoteURLPrefix: string := "https://hq.sinajs.cn/list="

  /** The built-in table of well-known index codes and their display names. */
  const KnownNames: map<string, string> :=
    map["sh000001" := "上证指数", "sz399001" := "深证成指", "sz399006" := "创业板指"]

  /** `getStockName`: the table's name for a known code, the code itself otherwise. */
  function GetStockName(code: string): (name: string)
    ensures code in KnownNames ==> name == KnownNames[code]
    ensures code !in KnownNames ==> name == code
  {
    if code in KnownNames then KnownNames[code] else code
  }

  /** `convertCodeForAPI`: both prefix rewrites replace a prefix by itself, so
      every code reaches the endpoint unchanged. */
  function ConvertCodeForAPI(code: string): (apiCode: string)
    ensures apiCode == code
  {
    if HasPrefix(code, "sh") then
      ReplaceFirstSelf(code, "sh");
      ReplaceFirst(code, "sh", "sh")
    else if HasPrefix(code, "sz") then
      ReplaceFirstSelf(code, "sz");
      ReplaceFirst(code, "sz", "sz")
    else code
  }

  /** `parseFloat`: 0 for the empty token, for `-` and for any token the float
      parser rejects; the parsed value otherwise. */
  function ParseFloat(parse: FloatParser, s: string): (v: real)
    ensures s == "" || s == "-" ==> v == 0.0
    ensures parse(s).None? ==> v == 0.0
    ensures s != "" && s != "-" && parse(s).Some? ==> v == parse(s).value
  {
    if s == "" || s == "-" then 0.0
    else match parse(s)
      case None => 0.0
      case Some(val) => val
  }

  /** `calculateChange`: the percentage move of the current price (field 3)
      against the previous close (field 2). */
  function CalculateChange(parse: FloatParser, fields: seq<string>): (c: real)
    requires |fields| >= 4
    ensures ParseFloat(parse, fields[2]) == 0.0 ==> c == 0.0
    ensures ParseFloat(parse, fields[2]) != 0.0 ==>
      ParseFloat(parse, fields[2]) + ParseFloat(parse, fields[2]) * c / 100.0 == ParseFloat(parse, fields[3])
  {
    var current := ParseFloat(parse, fields[3]);
    var previous := ParseFloat(parse, fields[2]);
    if previous == 0.0 then 0.0 else (current - previous) / previous * 100.0
  }

  /** The comma-separated fields of a reply: the segment after the first `=`,
      trimmed of the cutset at both ends. */
  function QuoteFields(body: string): (fields: seq<string>)
    requires '=' in body
    ensures |fields| >= 1
  {
    CountZero(body, '=');
    Split(Trim(Split(body, '=')[1], QuoteCutset), ',')
  }

  /** The snapshot built from the fields of a reply, or the error for too few. */
  function FromFields(parse: FloatParser, code: string, fields: seq<string>, now: int): (r: Result<StockData, FetchError>)
    ensures r.Err? <==> |fields| < 6
    ensures r.Err? ==> r.error == TooFewFields
    ensures r.Ok? ==> r.value.code == code && r.value.name == GetStockName(code) && r.value.timestamp == now
    ensures r.Ok? ==> r.value.changeAmt == r.value.current - r.value.previous
    ensures r.Ok? ==> r.value.change == ChangePercent(r.value)
    // field 0 is not read; fields 1 to 5 are open, previous close, current, high, low
    ensures r.Ok? ==>
              (r.value.open == ParseFloat(parse, fields[1]) && r.value.previous == ParseFloat(parse, fields[2]) &&
               r.value.current == ParseFloat(parse, fields[3]) && r.value.high == ParseFloat(parse, fields[4]) &&
               r.value.low == ParseFloat(parse, fields[5]))
  {
    if |fields| < 6 then Err(TooFewFields)
    else
      var current := ParseFloat(parse, fields[3]);
      var previous := ParseFloat(parse, fields[2]);
      var open := ParseFloat(parse, fields[1]);
      var high := ParseFloat(parse, fields[4]);
      var low := ParseFloat(parse, fields[5]);
      Ok(StockData(code, GetStockName(code), current, open, high, low, previous,
                   CalculateChange(parse, fields), current - previous, now))
  }

  /** The string part of `fetchFromSina`: a reply body to a snapshot. */
  function ParseQuote(parse: FloatParser, code: string, body: string, now: int): (r: Result<StockData, FetchError>)
    ensures r == Err(BadFormat) <==> '=' !in body
    ensures r.Err? ==> r.error == BadFormat || r.error == TooFewFields
    ensures '=' in body ==> r == FromFields(parse, code, QuoteFields(body), now)
    ensures r.Ok? ==> r.value.code == code && r.value.name == GetStockName(code) && r.value.timestamp == now
    ensures r.Ok? ==> r.value.changeAmt == r.value.current - r.value.previous
    ensures r.Ok? ==> r.value.change == ChangePercent(r.value)
  {
    if '=' !in body then Err(BadFormat)
    else
      var parts := Split(body, '=');
      CountZero(body, '=');
      if |parts| < 2 then Err(Unparseable)
      else
        var dataStr := Trim(parts[1], QuoteCutset);
        var fields := Split(dataStr, ',');
        FromFields(parse, code, fields, now)
  }

  /** `fetchFromSina`: the request for the code, then the parse of its reply. */
  function FetchFromSina(get: string -> Option<string>, parse: FloatParser,
                         code: string, now: int): (r: Result<StockData, FetchError>)
    ensures get(QuoteURLPrefix + code).None? ==> r == Err(RequestFailed)
    ensures get(QuoteURLPrefix + code).Some? ==> r == ParseQuote(parse, code, get(QuoteURLPrefix + code).value, now)
  {
    var url := QuoteURLPrefix + ConvertCodeForAPI(code);
    match get(url)
    case None => Err(RequestFailed)
    case Some(body) => ParseQuote(parse, code, body, now)
  }

  /** Go's `%`, which truncates toward zero: the remainder takes the sign of `a`. */
  function GoRem(a: int, b: int): (r: int)
    requires b > 0
    ensures -b < r < b
    ensures a >= 0 ==> 0 <= r
    ensures a <= 0 ==> r <= 0
    ensures exists q: int :: a == q * b + r
  {
    if a >= 0 then
      assert a == (a / b) * b + a % b;
      a % b
    else
      assert -a == ((-a) / b) * b + (-a) % b;
      assert a == (-((-a) / b)) * b + -((-a) % b);
      -((-a) % b)
  }

  /** `fetchFromMock`: a synthetic snapshot derived from the clock. The Unix time
      and the minute and second of the local time are those of one instant. */
  function FetchFromMock(code: string, now: int, minute: nat, second: nat): (r: Result<StockData, FetchError>)
    ensures r.Ok? && r.value.code == code && r.value.name == GetStockName(code) && r.value.timestamp == now
    ensures r.value.previous > 0.0 && r.value.change == ChangePercent(r.value)
    ensures r.value.changeAmt == r.value.current - r.value.previous
    ensures now >= 0 ==> r.value.high >= Max(r.value.open, r.value.current)
    ensures now >= 0 ==> r.value.low <= Min(r.value.open, r.value.current)
  {
    var base := 3000.0 + GoRem(now, 1000) as real;
    var open := base + ((minute % 50) as real - 25.0);
    var current := open + ((second % 100) as real - 50.0) * 0.1;
    var high := Max(open, current) + GoRem(now, 30) as real;
    var low := Min(open, current) - GoRem(now, 30) as real;
    var previous := open - GoRem(now, 20) as real + 10.0;
    Ok(StockData(code, GetStockName(code), current, open, high, low, previous,
                 (current - previous) / previous * 100.0, current - previous, now))
  }

  /** `FetchStockData`: the primary source, or the synthetic snapshot when it
      fails; so it never fails, and every snapshot it returns carries a change
      field equal to its own `ChangePercent`. */
  function FetchStockData(get: string -> Option<string>, parse: FloatParser,
                          code: string, now: int, minute: nat, second: nat): (r: Result<StockData, FetchError>)
    ensures r.Ok?
    ensures r.value.code == code && r.value.name == GetStockName(code) && r.value.timestamp == now
    ensures r.value.change == ChangePercent(r.value)
    ensures FetchFromSina(get, parse, code, now).Ok? ==> r == FetchFromSina(get, parse, code, now)
    ensures FetchFromSina(get, parse, code, now).Err? ==> r == FetchFromMock(code, now, minute, second)
  {
    var data := FetchFromSina(get, parse, code, now);
    if data.Err? then FetchFromMock(code, now, minute, second) else data
  }

  /** Only the text between the first `=` and the next one is read: whatever
      follows a second `=` does not change the result. */
  lemma ParseQuoteSegment(parse: FloatParser, code: string, now: int, pre: string, seg: string, rest: string)
    requires '=' !in pre && '=' !in seg
    ensures QuoteFields(pre + "=" + seg + "=" + rest) == Split(Trim(seg, QuoteCutset), ',')
    ensures QuoteFields(pre + "=" + seg) == Split(Trim(seg, QuoteCutset), ',')
    ensures ParseQuote(parse, code, pre + "=" + seg + "=" + rest, now) == ParseQuote(parse, code, pre + "=" + seg, now)
  {
    assert pre + "=" + seg + "=" + rest == pre + "=" + seg + ("=" + rest);
    SegmentAfterFirst(pre, seg, "=" + rest);
    assert pre + "=" + seg == pre + "=" + seg + "";
    SegmentAfterFirst(pre, seg, "");
  }

  /** The piece after the first `=` runs up to the next `=` or to the end. */
  lemma SegmentAfterFirst(pre: string, seg: string, rest: string)
    requires '=' !in pre && '=' !in seg
    requires rest == [] || rest[0] == '='
    ensures '=' in pre + "=" + seg + rest
    ensures |Split(pre + "=" + seg + rest, '=')| >= 2
    ensures Split(pre + "=" + seg + rest, '=')[1] == seg
  {
    var body := pre + "=" + seg + rest;
    assert body == pre + ['='] + (seg + rest);
    assert body[|pre|] == '=';
    SplitAtFirst(pre, '=', seg + rest);
    if rest == [] {
      assert seg + rest == seg;
      SplitNoSep(seg, '=');
    } else {
      assert seg + rest == seg + ['='] + rest[1..];
      SplitAtFirst(seg, '=', rest[1..]);
    }
  }

  /** A reply in the upstream layout, `name="f0,f1,...";`, parses into the
      fixed positions: open is field 1, previous close field 2, current field 3,
      high field 4 and low field 5; field 0 and those after 5 are not read, and
      fewer than six fields give `TooFewFields`. The joined fields must not begin
      or end with a cutset character, since `Trim` would strip it. */
  lemma ParseQuoteLayout(parse: FloatParser, code: string, now: int, name: string,
                         lead: string, fields: seq<string>, trail: string)
    requires '=' !in name
    requires forall k :: 0 <= k < |lead| ==> lead[k] in QuoteCutset
    requires forall k :: 0 <= k < |trail| ==> trail[k] in QuoteCutset
    requires |fields| >= 1
    requires forall i :: 0 <= i < |fields| ==> ',' !in fields[i] && '=' !in fields[i]
    requires Join(fields, ',') != []
    requires Join(fields, ',')[0] !in QuoteCutset
    requires Join(fields, ',')[|Join(fields, ',')| - 1] !in QuoteCutset
    ensures ParseQuote(parse, code, name + "=" + lead + Join(fields, ',') + trail, now) ==
      FromFields(parse, code, fields, now)
  {
    var joined := Join(fields, ',');
    var seg := lead + joined + trail;
    var body := name + "=" + seg;
    assert name + "=" + lead + joined + trail == body;
    assert QuoteFields(body) == fields by {
      assert '=' !in seg by {
        JoinNoSep(fields, ',', '=');
        assert forall k :: 0 <= k < |lead| ==> lead[k] != '=';
        assert forall k :: 0 <= k < |trail| ==> trail[k] != '=';
      }
      assert body == name + "=" + seg + "";
      SegmentAfterFirst(name, seg, "");
      TrimPadded(lead, joined, trail, QuoteCutset);
      SplitJoin(fields, ',');
    }
  }

  /** Joining pieces that avoid a character gives text that avoids it too. */
  lemma {:induction false} JoinNoSep(parts: seq<string>, sep: char, c: char)
    requires |parts| >= 1 && c != sep
    requires forall i :: 0 <= i < |parts| ==> c !in parts[i]
    ensures c !in Join(parts, sep)
    decreases |parts|
  {
    if |parts| > 1 {
      JoinNoSep(parts[1..], sep, c);
    }
  }
}
