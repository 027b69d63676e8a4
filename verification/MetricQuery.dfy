/** The metric query text (chat-api/tools.go, chat-api/influx.go) and a parser for it. Concatenations are
    grouped to the right. */
module MetricQuery {
  import opened Basics
  import C = CounterRate

  // ---------------------------------------------------------------- string literals

  /** strings.ReplaceAll(s, "'", "''"). */
  function DoubleQuotes(s: string): string {
    if s == [] then [] else (if s[0] == '\'' then "''" else [s[0]]) + DoubleQuotes(s[1..])
  }

  function SqlQuote(s: string): string {
    "'" + (DoubleQuotes(s) + "'")
  }

  /** The literal followed by more text. */
  function QuoteThen(s: string, tail: string): string {
    "'" + (DoubleQuotes(s) + ("'" + tail))
  }

  /** A character string literal of section 5.3 of ISO/IEC 9075-2: a quote, then characters in which a
      doubled quote stands for one, up to a quote that is not doubled. Returns the value and the rest. */
  function LexLiteral(text: string): Option<(string, string)> {
    if text != [] && text[0] == '\'' then LexBody(text[1..]) else None
  }

  function LexBody(text: string): Option<(string, string)> {
    if text == [] then None
    else if text[0] != '\'' then
      match LexBody(text[1..])
      case None => None
      case Some((value, rest)) => Some(([text[0]] + value, rest))
    else if |text| > 1 && text[1] == '\'' then
      match LexBody(text[2..])
      case None => None
      case Some((value, rest)) => Some((['\''] + value, rest))
    else Some(("", text[1..]))
  }

  predicate NoQuoteFirst(text: string) {
    text == [] || text[0] != '\''
  }

  lemma {:induction false} LexBodyOfEscaped(s: string, tail: string)
    requires NoQuoteFirst(tail)
    ensures LexBody(DoubleQuotes(s) + ("'" + tail)) == Some((s, tail))
  {
    if s == [] {
      assert DoubleQuotes(s) + ("'" + tail) == "'" + tail;
      assert ("'" + tail)[1..] == tail;
    } else {
      LexBodyOfEscaped(s[1..], tail);
      var front := if s[0] == '\'' then "''" else [s[0]];
      var rest := DoubleQuotes(s[1..]) + ("'" + tail);
      ConcatAssociative(front, DoubleQuotes(s[1..]), "'" + tail);
      assert (front + rest)[|front|..] == rest;
      assert [s[0]] + s[1..] == s;
    }
  }

  /** Lexing a quoted string gives back the string and the text after it, for every string. */
  lemma LexInvertsQuote(s: string, tail: string)
    requires NoQuoteFirst(tail)
    ensures QuoteThen(s, tail) == SqlQuote(s) + tail
    ensures LexLiteral(QuoteThen(s, tail)) == Some((s, tail))
  {
    LexBodyOfEscaped(s, tail);
    assert QuoteThen(s, tail)[1..] == DoubleQuotes(s) + ("'" + tail);
  }

  // ---------------------------------------------------------------- queries

  /** The restrictions of the WHERE clause. Numbers are carried as their text. */
  datatype Filter = Filter(agentHost: string, hours: string, sub: Option<SubFilter>)
  datatype SubFilter = SubFilter(dimension: string, value: string)

  datatype Shape =
    | Current
    | History
    | Aggregate(fn: string)
    | CountAbove(threshold: string)
    | Rate

  datatype Query = Query(shape: Shape, table: string, column: string, filter: Filter)

  const AND_QUOTE := " AND \""

  function SubText(sub: Option<SubFilter>, tail: string): string {
    match sub
    case None => tail
    case Some(f) => AND_QUOTE + (f.dimension + ("\" = " + QuoteThen(f.value, tail)))
  }

  /** The hours go between the quotes as they are. */
  function HoursText(hours: string, tail: string): string {
    "'" + (hours + (" hours'" + tail))
  }

  function WhereText(f: Filter, tail: string): string {
    "agent_host = " + QuoteThen(f.agentHost, " AND time >= now() - INTERVAL " + HoursText(f.hours, SubText(f.sub, tail)))
  }

  const CURRENT_TAIL := " ORDER BY time " + ("DESC" + (" LIMIT " + "1"))
  const HISTORY_TAIL := " ORDER BY time " + ("ASC" + (" LIMIT " + "500"))
  const RATE_HEAD := "\nWITH deltas AS (\n  SELECT time, \""
  const RATE_CLOSE := "\n)\nSELECT"
  const RATE_SUM := "\n  SUM(CASE WHEN delta < 0 THEN delta + 4294967296 ELSE delta END) AS total_bytes,"
  const RATE_SPAN := "\n  EXTRACT(EPOCH FROM (MAX(time) - MIN(time))) AS span_seconds"
  const RATE_FROM := "\nFROM deltas WHERE delta IS NOT NULL"
  const RATE_TAIL := RATE_CLOSE + (RATE_SUM + (RATE_SPAN + RATE_FROM))
  const COUNT_HEAD := "SELECT COUNT(*) AS result FROM "

  function FromWhere(table: string, f: Filter, tail: string): string {
    table + (" WHERE " + WhereText(f, tail))
  }

  function Print(q: Query): string {
    match q.shape
    case Current => "SELECT time, \"" + (q.column + ("\" FROM " + FromWhere(q.table, q.filter, CURRENT_TAIL)))
    case History => "SELECT time, \"" + (q.column + ("\" FROM " + FromWhere(q.table, q.filter, HISTORY_TAIL)))
    case Aggregate(fn) => "SELECT " + (fn + ("(\"" + (q.column + ("\") AS result FROM " + FromWhere(q.table, q.filter, "")))))
    case CountAbove(threshold) =>
      COUNT_HEAD + FromWhere(q.table, q.filter, AND_QUOTE + (q.column + ("\" > " + threshold)))
    case Rate =>
      RATE_HEAD + (q.column + ("\" - LAG(\"" + (q.column + ("\") OVER (ORDER BY time) AS delta\n  FROM "
      + FromWhere(q.table, q.filter, RATE_TAIL)))))
  }

  // ---------------------------------------------------------------- a parser

  /** What the engine is asked, as its grammar has it: columns in a time order up to a limit, an aggregate function by
      name, a count over a comparison, or the sum of clamped differences over the span. */
  datatype Sql =
    | SelectSeries(column: string, table: string, filter: Filter, descending: bool, limit: nat)
    | SelectAggregate(fn: string, column: string, table: string, filter: Filter)
    | SelectCount(column: string, threshold: string, table: string, filter: Filter)
    | SelectRate(column: string, table: string, filter: Filter)

  function Digits(s: string): nat {
    if s == "" then 0
    else Digits(s[..|s| - 1]) * 10 + (if '0' <= s[|s| - 1] <= '9' then s[|s| - 1] as int - 48 else 0)
  }

  function ParseNumber(s: string): Option<nat> {
    if s != "" && forall c :: c in s ==> '0' <= c <= '9' then Some(Digits(s)) else None
  }

  /** The direction and the limit. */
  function ParseOrder(text: string): Option<(bool, nat)> {
    match Expect(text, " ORDER BY time ")
    case None => None
    case Some(t1) =>
      match Until(t1, ' ')
      case None => None
      case Some((direction, t2)) =>
        match Expect(t2, " LIMIT ")
        case None => None
        case Some(t3) =>
          match ParseNumber(t3)
          case None => None
          case Some(limit) =>
            if direction == "DESC" then Some((true, limit)) else if direction == "ASC" then Some((false, limit)) else None
  }

  predicate ParseSum(text: string) {
    match Expect(text, "\n)\nSELECT")
    case None => false
    case Some(t1) =>
      match Expect(t1, "\n  SUM(CASE WHEN delta < 0 THEN delta + 4294967296 ELSE delta END) AS total_bytes,")
      case None => false
      case Some(t2) =>
        match Expect(t2, "\n  EXTRACT(EPOCH FROM (MAX(time) - MIN(time))) AS span_seconds")
        case None => false
        case Some(t3) => t3 == "\nFROM deltas WHERE delta IS NOT NULL"
  }

  function Expect(text: string, literal: string): Option<string> {
    if literal <= text then Some(text[|literal|..]) else None
  }

  /** The text before the first c, and the text from it on. */
  function Until(text: string, c: char): Option<(string, string)> {
    if text == [] then None
    else if text[0] == c then Some(("", text))
    else
      match Until(text[1..], c)
      case None => None
      case Some((word, rest)) => Some(([text[0]] + word, rest))
  }

  /** A sub-filter, if one follows; a comparison other than equality is left for the caller. */
  function ParseSub(text: string): Option<(SubFilter, string)> {
    match Expect(text, " AND \"")
    case None => None
    case Some(t1) =>
      match Until(t1, '"')
      case None => None
      case Some((dimension, t2)) =>
        match Expect(t2, "\" = ")
        case None => None
        case Some(t3) =>
          match LexLiteral(t3)
          case None => None
          case Some((value, rest)) => Some((SubFilter(dimension, value), rest))
  }

  function DropHours(s: string): Option<string> {
    if |s| >= 6 && s[|s| - 6..] == " hours" then Some(s[..|s| - 6]) else None
  }

  function ParseWhere(text: string): Option<(Filter, string)> {
    match Expect(text, "agent_host = ")
    case None => None
    case Some(t1) =>
      match LexLiteral(t1)
      case None => None
      case Some((agentHost, t2)) =>
        match Expect(t2, " AND time >= now() - INTERVAL ")
        case None => None
        case Some(t3) =>
          match LexLiteral(t3)
          case None => None
          case Some((interval, t4)) =>
            match DropHours(interval)
            case None => None
            case Some(hours) =>
              match ParseSub(t4)
              case None => Some((Filter(agentHost, hours, None), t4))
              case Some((sub, rest)) => Some((Filter(agentHost, hours, Some(sub)), rest))
  }

  function ParseFromWhere(text: string): Option<(string, Filter, string)> {
    match Until(text, ' ')
    case None => None
    case Some((table, t1)) =>
      match Expect(t1, " WHERE ")
      case None => None
      case Some(t2) =>
        match ParseWhere(t2)
        case None => None
        case Some((filter, rest)) => Some((table, filter, rest))
  }

  /** "column" and then a fixed text. */
  function ParseColumn(text: string, then_: string): Option<(string, string)> {
    match Until(text, '"')
    case None => None
    case Some((column, t1)) =>
      match Expect(t1, then_)
      case None => None
      case Some(rest) => Some((column, rest))
  }

  function ParseSeries(text: string): Option<Sql> {
    match ParseColumn(text, "\" FROM ")
    case None => None
    case Some((column, t1)) =>
      match ParseFromWhere(t1)
      case None => None
      case Some((table, filter, rest)) =>
        match ParseOrder(rest)
        case None => None
        case Some((descending, limit)) => Some(SelectSeries(column, table, filter, descending, limit))
  }

  function ParseCount(text: string): Option<Sql> {
    match ParseFromWhere(text)
    case None => None
    case Some((table, filter, t1)) =>
      match Expect(t1, " AND \"")
      case None => None
      case Some(t2) =>
        match ParseColumn(t2, "\" > ")
        case None => None
        case Some((column, threshold)) => Some(SelectCount(column, threshold, table, filter))
  }

  function ParseAggregate(text: string): Option<Sql> {
    match Until(text, '(')
    case None => None
    case Some((fn, t1)) =>
      match Expect(t1, "(\"")
      case None => None
      case Some(t2) =>
        match ParseColumn(t2, "\") AS result FROM ")
        case None => None
        case Some((column, t3)) =>
          match ParseFromWhere(t3)
          case None => None
          case Some((table, filter, rest)) => if rest == "" then Some(SelectAggregate(fn, column, table, filter)) else None
  }

  function ParseRate(text: string): Option<Sql> {
    match ParseColumn(text, "\" - LAG(\"")
    case None => None
    case Some((column, t1)) =>
      match ParseColumn(t1, "\") OVER (ORDER BY time) AS delta\n  FROM ")
      case None => None
      case Some((again, t2)) =>
        match ParseFromWhere(t2)
        case None => None
        case Some((table, filter, rest)) =>
          if again == column && ParseSum(rest) then Some(SelectRate(column, table, filter)) else None
  }

  function Parse(text: string): Option<Sql> {
    match Expect(text, "\nWITH deltas AS (\n  SELECT time, \"")
    case Some(rest) => ParseRate(rest)
    case None =>
      match Expect(text, "SELECT time, \"")
      case Some(rest) => ParseSeries(rest)
      case None =>
        match Expect(text, "SELECT COUNT(*) AS result FROM ")
        case Some(rest) => ParseCount(rest)
        case None =>
          match Expect(text, "SELECT ")
          case Some(rest) => ParseAggregate(rest)
          case None => None
  }

  // ---------------------------------------------------------------- round trip

  lemma ExpectPrinted(literal: string, rest: string)
    ensures Expect(literal + rest, literal) == Some(rest)
  {
    assert (literal + rest)[|literal|..] == rest;
  }

  lemma {:induction false} UntilPrinted(word: string, c: char, rest: string)
    requires c !in word && rest != [] && rest[0] == c
    ensures Until(word + rest, c) == Some((word, rest))
  {
    if word == [] {
      assert word + rest == rest;
    } else {
      UntilPrinted(word[1..], c, rest);
      assert (word + rest)[1..] == word[1..] + rest;
      assert [word[0]] + word[1..] == word;
    }
  }

  /** What follows a WHERE clause must not look like a sub-filter. */
  ghost predicate EndsWhere(tail: string) {
    NoQuoteFirst(tail) && ParseSub(tail) == None
  }

  /** A formatted number has no quote, and neither has a whitelisted dimension. */
  predicate PlainFilter(f: Filter) {
    '\'' !in f.hours && (f.sub.Some? ==> '"' !in f.sub.value.dimension)
  }

  lemma {:induction false} NothingToDouble(s: string)
    requires '\'' !in s
    ensures DoubleQuotes(s) == s
  {
    if s != [] {
      NothingToDouble(s[1..]);
    }
  }

  lemma HoursRoundTrip(hours: string, tail: string)
    requires '\'' !in hours && NoQuoteFirst(tail)
    ensures LexLiteral(HoursText(hours, tail)) == Some((hours + " hours", tail))
  {
    NothingToDouble(hours + " hours");
    LexInvertsQuote(hours + " hours", tail);
    ConcatAssociative(hours, " hours", "'" + tail);
    assert " hours'" + tail == " hours" + ("'" + tail);
  }

  lemma SubRoundTrip(sub: SubFilter, tail: string)
    requires NoQuoteFirst(tail) && '"' !in sub.dimension
    ensures ParseSub(SubText(Some(sub), tail)) == Some((sub, tail))
  {
    var t3 := QuoteThen(sub.value, tail);
    var t2 := "\" = " + t3;
    ExpectPrinted(AND_QUOTE, sub.dimension + t2);
    UntilPrinted(sub.dimension, '"', t2);
    ExpectPrinted("\" = ", t3);
    LexInvertsQuote(sub.value, tail);
  }

  lemma DropHoursPrinted(hours: string)
    ensures DropHours(hours + " hours") == Some(hours)
  {
    var s := hours + " hours";
    assert s[|s| - 6..] == " hours";
    assert s[..|s| - 6] == hours;
  }

  lemma WhereRoundTrip(f: Filter, tail: string)
    requires EndsWhere(tail) && PlainFilter(f)
    ensures ParseWhere(WhereText(f, tail)) == Some((f, tail))
  {
    var t4 := SubText(f.sub, tail);
    assert NoQuoteFirst(t4);
    var t3 := HoursText(f.hours, t4);
    var t2 := " AND time >= now() - INTERVAL " + t3;
    hide LexLiteral, QuoteThen, HoursText, ParseSub, SubText, Expect, DropHours, EndsWhere;
    ExpectPrinted("agent_host = ", QuoteThen(f.agentHost, t2));
    LexInvertsQuote(f.agentHost, t2);
    ExpectPrinted(" AND time >= now() - INTERVAL ", t3);
    HoursRoundTrip(f.hours, t4);
    DropHoursPrinted(f.hours);
    SubPrinted(f.sub, tail);
  }

  lemma SubPrinted(sub: Option<SubFilter>, tail: string)
    requires EndsWhere(tail) && (sub.Some? ==> '"' !in sub.value.dimension)
    ensures ParseSub(SubText(sub, tail)) == if sub.None? then None else Some((sub.value, tail))
    ensures sub.None? ==> SubText(sub, tail) == tail
  {
    if sub.Some? {
      SubRoundTrip(sub.value, tail);
    }
  }

  lemma FromWhereRoundTrip(table: string, f: Filter, tail: string)
    requires EndsWhere(tail) && PlainFilter(f) && ' ' !in table
    ensures ParseFromWhere(FromWhere(table, f, tail)) == Some((table, f, tail))
  {
    var t1 := " WHERE " + WhereText(f, tail);
    hide WhereText, ParseWhere, EndsWhere;
    UntilPrinted(table, ' ', t1);
    ExpectPrinted(" WHERE ", WhereText(f, tail));
    WhereRoundTrip(f, tail);
  }

  lemma ColumnRoundTrip(column: string, then_: string, rest: string)
    requires '"' !in column && then_ != [] && then_[0] == '"'
    ensures ParseColumn(column + (then_ + rest), then_) == Some((column, rest))
  {
    UntilPrinted(column, '"', then_ + rest);
    ExpectPrinted(then_, rest);
  }

  lemma OrderPrinted()
    ensures ParseOrder(CURRENT_TAIL) == Some((true, 1)) && ParseOrder(HISTORY_TAIL) == Some((false, 500))
  {
    NumbersPrinted();
    OrderPrintedAs("DESC", "1", 1);
    OrderPrintedAs("ASC", "500", 500);
  }

  lemma OrderPrintedAs(direction: string, number: string, limit: nat)
    requires direction in {"DESC", "ASC"} && ParseNumber(number) == Some(limit)
    ensures ParseOrder(" ORDER BY time " + (direction + (" LIMIT " + number))) == Some((direction == "DESC", limit))
  {
    hide ParseNumber;
    ExpectPrinted(" ORDER BY time ", direction + (" LIMIT " + number));
    UntilPrinted(direction, ' ', " LIMIT " + number);
    ExpectPrinted(" LIMIT ", number);
  }

  lemma NumbersPrinted()
    ensures ParseNumber("1") == Some(1) && ParseNumber("500") == Some(500)
  {
    assert "1"[..0] == "";
    assert "500"[..2] == "50" && "50"[..1] == "5" && "5"[..0] == "";
  }

  lemma SumPrinted()
    ensures ParseSum(RATE_TAIL)
  {
    ExpectPrinted(RATE_CLOSE, RATE_SUM + (RATE_SPAN + RATE_FROM));
    ExpectPrinted(RATE_SUM, RATE_SPAN + RATE_FROM);
    ExpectPrinted(RATE_SPAN, RATE_FROM);
  }

  lemma NotASubFilter(text: string)
    requires !(AND_QUOTE <= text)
    ensures ParseSub(text) == None
  {
  }

  lemma TailsEndWhere()
    ensures EndsWhere(CURRENT_TAIL) && EndsWhere(HISTORY_TAIL) && EndsWhere("") && EndsWhere(RATE_TAIL)
  {
    assert " ORDER BY time "[1] == 'O' && CURRENT_TAIL[1] == 'O' && HISTORY_TAIL[1] == 'O' && RATE_CLOSE[0] == '\n' == RATE_TAIL[0];
    assert AND_QUOTE[1] == 'A' && AND_QUOTE[0] == ' ' && |AND_QUOTE| == 6;
    NotASubFilter(CURRENT_TAIL);
    NotASubFilter(HISTORY_TAIL);
    NotASubFilter("");
    NotASubFilter(RATE_TAIL);
  }

  lemma ThresholdEndsWhere(column: string, threshold: string)
    requires '"' !in column
    ensures EndsWhere(AND_QUOTE + (column + ("\" > " + threshold)))
  {
    var t2 := "\" > " + threshold;
    ExpectPrinted(AND_QUOTE, column + t2);
    UntilPrinted(column, '"', t2);
    assert t2[2] == '>' && "\" = "[2] == '=';
  }

  /** Identifiers as the column whitelist has them, and one of the three aggregate functions. */
  predicate WellFormed(q: Query) {
    && '"' !in q.column && ' ' !in q.table && PlainFilter(q.filter)
    && (q.shape.Aggregate? ==> q.shape.fn in {"AVG", "MAX", "MIN"})
  }

  /** The four beginnings are told apart. */
  lemma ParseByHead(rest: string, fn: string)
    requires fn in {"AVG", "MAX", "MIN"}
    ensures Parse(RATE_HEAD + rest) == ParseRate(rest)
    ensures Parse("SELECT time, \"" + rest) == ParseSeries(rest)
    ensures Parse(COUNT_HEAD + rest) == ParseCount(rest)
    ensures Parse("SELECT " + (fn + rest)) == ParseAggregate(fn + rest)
  {
    hide ParseRate, ParseSeries, ParseCount, ParseAggregate;
    var series, count, aggregate := "SELECT time, \"" + rest, COUNT_HEAD + rest, "SELECT " + (fn + rest);
    ExpectPrinted(RATE_HEAD, rest);
    ExpectPrinted("SELECT time, \"", rest);
    ExpectPrinted(COUNT_HEAD, rest);
    ExpectPrinted("SELECT ", fn + rest);
    assert RATE_HEAD[0] == '\n' && series[0] == 'S' && count[0] == 'S' && aggregate[0] == 'S';
    assert "SELECT time, \""[7] == 't' && COUNT_HEAD[7] == 'C' && count[7] == 'C' && aggregate[7] == fn[0] && fn[0] in {'A', 'M'};
  }

  lemma SeriesPrinted(column: string, table: string, filter: Filter, tail: string, descending: bool, limit: nat)
    requires '"' !in column && ' ' !in table && PlainFilter(filter)
    requires tail in {CURRENT_TAIL, HISTORY_TAIL} && ParseOrder(tail) == Some((descending, limit))
    ensures ParseSeries(column + ("\" FROM " + FromWhere(table, filter, tail)))
         == Some(SelectSeries(column, table, filter, descending, limit))
  {
    hide ParseColumn, ParseFromWhere, FromWhere, EndsWhere, PlainFilter, Expect, Until, ParseOrder;
    TailsEndWhere();
    FromWhereRoundTrip(table, filter, tail);
    ColumnRoundTrip(column, "\" FROM ", FromWhere(table, filter, tail));
  }

  /** What a query asks of the engine: the newest row, the first 500 rows in ascending time, and so on. */
  function Asked(q: Query): Sql {
    match q.shape
    case Current => SelectSeries(q.column, q.table, q.filter, true, 1)
    case History => SelectSeries(q.column, q.table, q.filter, false, 500)
    case Aggregate(fn) => SelectAggregate(fn, q.column, q.table, q.filter)
    case CountAbove(threshold) => SelectCount(q.column, threshold, q.table, q.filter)
    case Rate => SelectRate(q.column, q.table, q.filter)
  }

  lemma SeriesRoundTrip(q: Query)
    requires WellFormed(q) && (q.shape.Current? || q.shape.History?)
    ensures Parse(Print(q)) == Some(Asked(q))
  {
    hide ParseSeries, FromWhere, Parse;
    var tail := if q.shape.Current? then CURRENT_TAIL else HISTORY_TAIL;
    ParseByHead(q.column + ("\" FROM " + FromWhere(q.table, q.filter, tail)), "AVG");
    OrderPrinted();
    SeriesPrinted(q.column, q.table, q.filter, tail, q.shape.Current?, if q.shape.Current? then 1 else 500);
  }

  lemma CountRoundTrip(q: Query)
    requires WellFormed(q) && q.shape.CountAbove?
    ensures Parse(Print(q)) == Some(Asked(q))
  {
    hide ParseColumn, ParseFromWhere, FromWhere, Parse;
    var t2 := q.column + ("\" > " + q.shape.threshold);
    ParseByHead(FromWhere(q.table, q.filter, AND_QUOTE + t2), "AVG");
    ThresholdEndsWhere(q.column, q.shape.threshold);
    FromWhereRoundTrip(q.table, q.filter, AND_QUOTE + t2);
    ExpectPrinted(AND_QUOTE, t2);
    ColumnRoundTrip(q.column, "\" > ", q.shape.threshold);
  }

  lemma AggregateRoundTrip(q: Query)
    requires WellFormed(q) && q.shape.Aggregate?
    ensures Parse(Print(q)) == Some(Asked(q))
  {
    hide ParseColumn, ParseFromWhere, FromWhere, Parse, EndsWhere, PlainFilter;
    var fw := FromWhere(q.table, q.filter, "");
    var t2 := q.column + ("\") AS result FROM " + fw);
    var t1 := "(\"" + t2;
    ParseByHead(t1, q.shape.fn);
    UntilPrinted(q.shape.fn, '(', t1);
    ExpectPrinted("(\"", t2);
    TailsEndWhere();
    FromWhereRoundTrip(q.table, q.filter, "");
    ColumnRoundTrip(q.column, "\") AS result FROM ", fw);
  }

  lemma RateRoundTrip(q: Query)
    requires WellFormed(q) && q.shape.Rate?
    ensures Parse(Print(q)) == Some(Asked(q))
  {
    hide ParseColumn, ParseFromWhere, FromWhere, Parse;
    var fw := FromWhere(q.table, q.filter, RATE_TAIL);
    var over := "\") OVER (ORDER BY time) AS delta\n  FROM ";
    var t1 := q.column + (over + fw);
    ParseByHead(q.column + ("\" - LAG(\"" + t1), "AVG");
    TailsEndWhere();
    SumPrinted();
    FromWhereRoundTrip(q.table, q.filter, RATE_TAIL);
    ColumnRoundTrip(q.column, "\" - LAG(\"", t1);
    ColumnRoundTrip(q.column, over, fw);
  }

  /** Parsing a printed query gives back exactly that query, whatever strings its filters carry. */
  lemma PrintRoundTrip(q: Query)
    requires WellFormed(q)
    ensures Parse(Print(q)) == Some(Asked(q))
  {
    match q.shape
    case Current => SeriesRoundTrip(q);
    case History => SeriesRoundTrip(q);
    case Aggregate(_) => AggregateRoundTrip(q);
    case CountAbove(_) => CountRoundTrip(q);
    case Rate => RateRoundTrip(q);
  }

  // ---------------------------------------------------------------- building a query from a tool call

  datatype ColumnKind = Gauge | Counter
  datatype MetricColumn = MetricColumn(kind: ColumnKind, subDimension: string, subDimensionDefault: string)

  /** What a tool call asks for; None where buildMetricQuery reports an error: an aggregation that does not
      fit the column's kind or does not exist, or a missing threshold. */
  function Requested(
      table: string, column: string, mc: MetricColumn, agentHost: string, subFilter: string, aggregation: string,
      hours: real, threshold: Option<real>, format: real -> string): Option<Query>
  {
    var sub := if subFilter != "" then Some(SubFilter(mc.subDimension, subFilter)) else None;
    var filter := Filter(agentHost, format(hours), sub);
    if aggregation == "current" then Some(Query(Current, table, column, filter))
    else if aggregation == "history" then Some(Query(History, table, column, filter))
    else if aggregation in {"avg", "max", "min"} then
      if mc.kind.Counter? then None
      else Some(Query(Aggregate(if aggregation == "avg" then "AVG" else if aggregation == "max" then "MAX" else "MIN"), table, column, filter))
    else if aggregation == "count_above_threshold" then
      if mc.kind.Counter? || threshold.None? then None
      else Some(Query(CountAbove(format(threshold.value)), table, column, filter))
    else if aggregation == "rate" then
      if mc.kind.Gauge? then None else Some(Query(Rate, table, column, filter))
    else None
  }

  function BuildMetricQuery(
      table: string, column: string, mc: MetricColumn, agentHost: string, subFilter: string, aggregation: string,
      hours: real, threshold: Option<real>, format: real -> string): Option<string>
  {
    match Requested(table, column, mc, agentHost, subFilter, aggregation, hours, threshold, format)
    case None => None
    case Some(q) => Some(Print(q))
  }

  /** The text of a tool call's query parses to what the call asked for, for every device and sub-filter
      string and every aggregation; the names come from the whitelist and `format` prints a number. */
  lemma BuiltQueryParses(
      table: string, column: string, mc: MetricColumn, agentHost: string, subFilter: string, aggregation: string,
      hours: real, threshold: Option<real>, format: real -> string)
    requires ' ' !in table && '"' !in column && '"' !in mc.subDimension && '\'' !in format(hours)
    requires BuildMetricQuery(table, column, mc, agentHost, subFilter, aggregation, hours, threshold, format).Some?
    ensures Parse(BuildMetricQuery(table, column, mc, agentHost, subFilter, aggregation, hours, threshold, format).value)
         == Some(Asked(Requested(table, column, mc, agentHost, subFilter, aggregation, hours, threshold, format).value))
  {
    hide Print, Parse;
    var q := Requested(table, column, mc, agentHost, subFilter, aggregation, hours, threshold, format).value;
    PrintRoundTrip(q);
  }

  /** Hence different requests never share a text. */
  lemma PrintInjective(a: Query, b: Query)
    requires WellFormed(a) && WellFormed(b) && Print(a) == Print(b)
    ensures a == b
  {
    hide Print, Parse, WellFormed;
    PrintRoundTrip(a);
    PrintRoundTrip(b);
  }

  // ---------------------------------------------------------------- what a query means

  /** A stored row: its time, the device it came from, its tags, and its columns. */
  datatype Record = Record(time: real, host: string, tag: string -> string, value: string -> real)

  /** The rows of one device since an instant, of one sub-dimension value if one is asked for, in their order. */
  function Scope(all: seq<Record>, host: string, since: real, sub: Option<SubFilter>): seq<Record> {
    if all == [] then []
    else
      var rest, last := Scope(all[..|all| - 1], host, since, sub), all[|all| - 1];
      if last.host == host && last.time >= since && (sub.Some? ==> last.tag(sub.value.dimension) == sub.value.value) then rest + [last]
      else rest
  }

  datatype Answer = Points(points: seq<(real, real)>) | Number(value: Option<real>) | Count(count: nat) | Throughput(row: Option<C.RateRow>)
    | NoSuchFunction

  function Point(r: Record, column: string): (real, real) {
    (r.time, r.value(column))
  }

  function PointsOf(rows: seq<Record>, column: string): seq<(real, real)> {
    seq(|rows|, i requires 0 <= i < |rows| => Point(rows[i], column))
  }

  function Reversed(rows: seq<Record>): seq<Record> {
    seq(|rows|, i requires 0 <= i < |rows| => rows[|rows| - 1 - i])
  }

  function Sum(rows: seq<Record>, column: string): real {
    if rows == [] then 0.0 else Sum(rows[..|rows| - 1], column) + rows[|rows| - 1].value(column)
  }

  function Largest(rows: seq<Record>, column: string): real
    requires rows != []
  {
    var last := rows[|rows| - 1].value(column);
    if |rows| == 1 then last
    else
      var rest := Largest(rows[..|rows| - 1], column);
      if rest > last then rest else last
  }

  function Smallest(rows: seq<Record>, column: string): real
    requires rows != []
  {
    var last := rows[|rows| - 1].value(column);
    if |rows| == 1 then last
    else
      var rest := Smallest(rows[..|rows| - 1], column);
      if rest < last then rest else last
  }

  function CountOver(rows: seq<Record>, column: string, threshold: real): nat {
    if rows == [] then 0
    else CountOver(rows[..|rows| - 1], column, threshold) + (if rows[|rows| - 1].value(column) > threshold then 1 else 0)
  }

  /** Counter columns hold whole numbers. */
  function SamplesIn(rows: seq<Record>, column: string): seq<C.Sample> {
    seq(|rows|, i requires 0 <= i < |rows| => C.Sample(rows[i].time, rows[i].value(column).Floor))
  }

  /** The answer of the engine, whose tables are in time order, at the instant `now`; `number` reads a number's text. */
  function Meaning(q: Sql, tables: string -> seq<Record>, now: real, number: string -> real): Answer {
    var rows := Scope(tables(q.table), q.filter.agentHost, now - number(q.filter.hours) * 3600.0, q.filter.sub);
    match q
    case SelectSeries(column, _, _, descending, limit) =>
      var ordered := if descending then Reversed(rows) else rows;
      Points(PointsOf(if limit < |ordered| then ordered[..limit] else ordered, column))
    case SelectAggregate(fn, column, _, _) =>
      if fn == "AVG" then Number(if rows == [] then None else Some(Sum(rows, column) / |rows| as real))
      else if fn == "MAX" then Number(if rows == [] then None else Some(Largest(rows, column)))
      else if fn == "MIN" then Number(if rows == [] then None else Some(Smallest(rows, column)))
      else NoSuchFunction
    case SelectCount(column, threshold, _, _) => Count(CountOver(rows, column, number(threshold)))
    case SelectRate(column, _, _) => Throughput(C.RateQuery(SamplesIn(rows, column)))
  }

  /** The answer is what the name of the aggregation promises about these rows. */
  ghost predicate AnswersAs(aggregation: string, answer: Answer, rows: seq<Record>, column: string, threshold: Option<real>) {
    if aggregation == "current" then
      answer == Points(if rows == [] then [] else [Point(rows[|rows| - 1], column)])
    else if aggregation == "history" then
      && answer.Points? && |answer.points| == (if |rows| < 500 then |rows| else 500)
      && forall k :: 0 <= k < |answer.points| ==> answer.points[k] == Point(rows[k], column)
    else if aggregation == "avg" then
      answer.Number? && (answer.value.None? <==> rows == []) && (rows != [] ==> answer.value.value * |rows| as real == Sum(rows, column))
    else if aggregation == "max" then
      && answer.Number? && (answer.value.None? <==> rows == [])
      && (rows != [] ==> (exists k :: 0 <= k < |rows| && rows[k].value(column) == answer.value.value)
                         && forall k :: 0 <= k < |rows| ==> rows[k].value(column) <= answer.value.value)
    else if aggregation == "min" then
      && answer.Number? && (answer.value.None? <==> rows == [])
      && (rows != [] ==> (exists k :: 0 <= k < |rows| && rows[k].value(column) == answer.value.value)
                         && forall k :: 0 <= k < |rows| ==> rows[k].value(column) >= answer.value.value)
    else if aggregation == "count_above_threshold" then
      threshold.Some? && answer == Count(|set k | 0 <= k < |rows| && rows[k].value(column) > threshold.value|)
    else aggregation == "rate" && answer == Throughput(C.RateQuery(SamplesIn(rows, column)))
  }

  lemma {:induction false} LargestExact(rows: seq<Record>, column: string)
    requires rows != []
    ensures exists k :: 0 <= k < |rows| && rows[k].value(column) == Largest(rows, column)
    ensures forall k :: 0 <= k < |rows| ==> rows[k].value(column) <= Largest(rows, column)
  {
    assert rows[|rows| - 1].value(column) <= Largest(rows, column);
    if |rows| > 1 {
      var front := rows[..|rows| - 1];
      LargestExact(front, column);
      var k :| 0 <= k < |front| && front[k].value(column) == Largest(front, column);
      assert rows[k] == front[k];
      assert forall j :: 0 <= j < |front| ==> rows[j] == front[j];
    }
  }

  lemma {:induction false} SmallestExact(rows: seq<Record>, column: string)
    requires rows != []
    ensures exists k :: 0 <= k < |rows| && rows[k].value(column) == Smallest(rows, column)
    ensures forall k :: 0 <= k < |rows| ==> rows[k].value(column) >= Smallest(rows, column)
  {
    assert rows[|rows| - 1].value(column) >= Smallest(rows, column);
    if |rows| > 1 {
      var front := rows[..|rows| - 1];
      SmallestExact(front, column);
      var k :| 0 <= k < |front| && front[k].value(column) == Smallest(front, column);
      assert rows[k] == front[k];
      assert forall j :: 0 <= j < |front| ==> rows[j] == front[j];
    }
  }

  /** The positions of the rows above a threshold. */
  function Above(rows: seq<Record>, column: string, threshold: real): set<int> {
    if rows == [] then {}
    else Above(rows[..|rows| - 1], column, threshold) + (if rows[|rows| - 1].value(column) > threshold then {|rows| - 1} else {})
  }

  lemma {:induction false} AboveExact(rows: seq<Record>, column: string, threshold: real)
    ensures |Above(rows, column, threshold)| == CountOver(rows, column, threshold)
    ensures forall k :: k in Above(rows, column, threshold) <==> 0 <= k < |rows| && rows[k].value(column) > threshold
  {
    if rows != [] {
      var front := rows[..|rows| - 1];
      AboveExact(front, column, threshold);
      assert forall k :: 0 <= k < |front| ==> front[k] == rows[k];
      assert |rows| - 1 !in Above(front, column, threshold);
    }
  }

  lemma CountOverExact(rows: seq<Record>, column: string, threshold: real)
    ensures CountOver(rows, column, threshold) == |set k | 0 <= k < |rows| && rows[k].value(column) > threshold|
  {
    hide Above, CountOver;
    AboveExact(rows, column, threshold);
    assert Above(rows, column, threshold) == set k | 0 <= k < |rows| && rows[k].value(column) > threshold;
  }

  lemma NewestRow(rows: seq<Record>)
    requires rows != []
    ensures |Reversed(rows)| == |rows| && Reversed(rows)[0] == rows[|rows| - 1]
    ensures (if 1 < |rows| then Reversed(rows)[..1] else Reversed(rows)) == [rows[|rows| - 1]]
  {
  }

  lemma DivisionOf(sum: real, n: real)
    requires n > 0.0
    ensures (sum / n) * n == sum
  {
  }

  /** The rows a restriction selects. */
  function Selected(tables: string -> seq<Record>, table: string, f: Filter, now: real, number: string -> real): seq<Record> {
    Scope(tables(table), f.agentHost, now - number(f.hours) * 3600.0, f.sub)
  }

  lemma CurrentMeans(table: string, column: string, f: Filter, threshold: Option<real>, tables: string -> seq<Record>, now: real, number: string -> real)
    ensures AnswersAs("current", Meaning(SelectSeries(column, table, f, true, 1), tables, now, number),
                      Selected(tables, table, f, now, number), column, threshold)
  {
    hide Scope, Sum, Largest, Smallest, CountOver;
    var rows := Selected(tables, table, f, now, number);
    if rows != [] {
      NewestRow(rows);
      assert PointsOf([rows[|rows| - 1]], column) == [Point(rows[|rows| - 1], column)];
    }
    hide Reversed, Point;
  }

  lemma HistoryMeans(table: string, column: string, f: Filter, threshold: Option<real>, tables: string -> seq<Record>, now: real, number: string -> real)
    ensures AnswersAs("history", Meaning(SelectSeries(column, table, f, false, 500), tables, now, number),
                      Selected(tables, table, f, now, number), column, threshold)
  {
    hide Scope, Reversed, Point, Sum, Largest, Smallest, CountOver;
  }

  lemma AverageMeans(table: string, column: string, f: Filter, threshold: Option<real>, tables: string -> seq<Record>, now: real, number: string -> real)
    ensures AnswersAs("avg", Meaning(SelectAggregate("AVG", column, table, f), tables, now, number),
                      Selected(tables, table, f, now, number), column, threshold)
  {
    hide Scope, Sum;
    var rows := Selected(tables, table, f, now, number);
    if rows != [] {
      DivisionOf(Sum(rows, column), |rows| as real);
    }
  }

  lemma MaximumMeans(table: string, column: string, f: Filter, threshold: Option<real>, tables: string -> seq<Record>, now: real, number: string -> real)
    ensures AnswersAs("max", Meaning(SelectAggregate("MAX", column, table, f), tables, now, number),
                      Selected(tables, table, f, now, number), column, threshold)
  {
    hide Scope, Largest, Sum, Smallest;
    var rows := Selected(tables, table, f, now, number);
    if rows != [] {
      LargestExact(rows, column);
    }
  }

  lemma MinimumMeans(table: string, column: string, f: Filter, threshold: Option<real>, tables: string -> seq<Record>, now: real, number: string -> real)
    ensures AnswersAs("min", Meaning(SelectAggregate("MIN", column, table, f), tables, now, number),
                      Selected(tables, table, f, now, number), column, threshold)
  {
    hide Scope, Largest, Sum, Smallest;
    var rows := Selected(tables, table, f, now, number);
    if rows != [] {
      SmallestExact(rows, column);
    }
  }

  lemma CountMeans(table: string, column: string, f: Filter, threshold: real, text: string, tables: string -> seq<Record>, now: real, number: string -> real)
    requires number(text) == threshold
    ensures AnswersAs("count_above_threshold", Meaning(SelectCount(column, text, table, f), tables, now, number),
                      Selected(tables, table, f, now, number), column, Some(threshold))
  {
    hide Scope, CountOver;
    CountOverExact(Selected(tables, table, f, now, number), column, threshold);
  }

  lemma RateMeans(table: string, column: string, f: Filter, threshold: Option<real>, tables: string -> seq<Record>, now: real, number: string -> real)
    ensures AnswersAs("rate", Meaning(SelectRate(column, table, f), tables, now, number),
                      Selected(tables, table, f, now, number), column, threshold)
  {
    hide Scope, C.RateQuery, SamplesIn;
  }

  /** A requested query, as the engine is asked it, means what its aggregation names. */
  lemma RequestedMeans(
      table: string, column: string, mc: MetricColumn, agentHost: string, subFilter: string, aggregation: string, hours: real,
      threshold: Option<real>, format: real -> string, tables: string -> seq<Record>, now: real, number: string -> real)
    requires forall x :: number(format(x)) == x
    requires Requested(table, column, mc, agentHost, subFilter, aggregation, hours, threshold, format).Some?
    ensures var q := Asked(Requested(table, column, mc, agentHost, subFilter, aggregation, hours, threshold, format).value);
            var sub := if subFilter == "" then None else Some(SubFilter(mc.subDimension, subFilter));
            AnswersAs(aggregation, Meaning(q, tables, now, number), Scope(tables(table), agentHost, now - hours * 3600.0, sub), column, threshold)
  {
    hide AnswersAs, Meaning, Scope;
    var f := Filter(agentHost, format(hours), if subFilter == "" then None else Some(SubFilter(mc.subDimension, subFilter)));
    assert number(format(hours)) == hours;
    CurrentMeans(table, column, f, threshold, tables, now, number);
    HistoryMeans(table, column, f, threshold, tables, now, number);
    AverageMeans(table, column, f, threshold, tables, now, number);
    MaximumMeans(table, column, f, threshold, tables, now, number);
    MinimumMeans(table, column, f, threshold, tables, now, number);
    RateMeans(table, column, f, threshold, tables, now, number);
    if threshold.Some? {
      CountMeans(table, column, f, threshold.value, format(threshold.value), tables, now, number);
    }
  }

  /** The text of a tool call's query, parsed and answered, gives what the call's aggregation names, over the rows of the
      device in the requested hours: for "max", a value that some row has and none exceeds. */
  lemma {:induction false} BuiltQueryMeans(
      table: string, column: string, mc: MetricColumn, agentHost: string, subFilter: string, aggregation: string, hours: real,
      threshold: Option<real>, format: real -> string, tables: string -> seq<Record>, now: real, number: string -> real)
    requires ' ' !in table && '"' !in column && '"' !in mc.subDimension && '\'' !in format(hours)
    requires forall x :: number(format(x)) == x
    requires BuildMetricQuery(table, column, mc, agentHost, subFilter, aggregation, hours, threshold, format).Some?
    ensures var parsed := Parse(BuildMetricQuery(table, column, mc, agentHost, subFilter, aggregation, hours, threshold, format).value);
            var sub := if subFilter == "" then None else Some(SubFilter(mc.subDimension, subFilter));
            && parsed.Some?
            && AnswersAs(aggregation, Meaning(parsed.value, tables, now, number),
                         Scope(tables(table), agentHost, now - hours * 3600.0, sub), column, threshold)
  {
    hide Parse, Print, Asked, AnswersAs, Meaning, Scope;
    BuiltQueryParses(table, column, mc, agentHost, subFilter, aggregation, hours, threshold, format);
    hide Requested;
    RequestedMeans(table, column, mc, agentHost, subFilter, aggregation, hours, threshold, format, tables, now, number);
  }

  /** Which calls are refused: an aggregation that does not exist or does not fit the kind of the column, and a count
      without a threshold. */
  lemma RefusedIff(
      table: string, column: string, mc: MetricColumn, agentHost: string, subFilter: string, aggregation: string,
      hours: real, threshold: Option<real>, format: real -> string)
    ensures BuildMetricQuery(table, column, mc, agentHost, subFilter, aggregation, hours, threshold, format).None? <==>
              || aggregation !in {"current", "history", "avg", "max", "min", "count_above_threshold", "rate"}
              || (mc.kind == Counter && aggregation in {"avg", "max", "min", "count_above_threshold"})
              || (mc.kind == Gauge && aggregation == "rate")
              || (aggregation == "count_above_threshold" && threshold.None?)
  {
    hide Print;
  }

  // ---------------------------------------------------------------- the sub-filter

  predicate Contains(s: string, part: string) {
    part <= s || (s != [] && Contains(s[1..], part))
  }

  function Matching(known: seq<string>, part: string, lower: string -> string): seq<string> {
    if known == [] then []
    else
      var rest, last := Matching(known[..|known| - 1], part, lower), known[|known| - 1];
      if Contains(lower(last), part) then rest + [last] else rest
  }

  function Strings(rows: seq<Option<string>>): seq<string> {
    if rows == [] then []
    else
      var rest, last := Strings(rows[..|rows| - 1]), rows[|rows| - 1];
      if last.Some? && last.value != "" then rest + [last.value] else rest
  }

  /** `rows` is what the lookup of the device's values returned, None if it failed. A requested text is only
      ever answered by a value the device reports: the first one equal to it up to case, or else the only
      one that contains it. */
  method ResolveSubFilter(
      mc: MetricColumn, requested: string, rows: Option<seq<Option<string>>>, lower: string -> string, equalFold: (string, string) -> bool)
    returns (r: Option<string>)
    ensures mc.subDimension == "" ==> r == Some("")
    ensures mc.subDimension != "" && requested == "" ==>
              r == if mc.subDimensionDefault != "" then Some(mc.subDimensionDefault) else None
    ensures mc.subDimension != "" && requested != "" && rows.None? ==> r == None
    ensures mc.subDimension != "" && requested != "" && rows.Some? ==>
              var known := Strings(rows.value);
              var matches := Matching(known, lower(requested), lower);
              if exists v :: v in known && equalFold(v, requested) then
                exists i :: 0 <= i < |known| && equalFold(known[i], requested) && r == Some(known[i])
                            && forall j :: 0 <= j < i ==> !equalFold(known[j], requested)
              else r == if |matches| == 1 then Some(matches[0]) else None
  {
    if mc.subDimension == "" {
      return Some("");
    }
    if requested == "" {
      return if mc.subDimensionDefault != "" then Some(mc.subDimensionDefault) else None;
    }
    if rows.None? {
      return None;
    }
    var known: seq<string> := [];
    for i := 0 to |rows.value|
      invariant known == Strings(rows.value[..i])
    {
      assert rows.value[..i + 1][..i] == rows.value[..i];
      if rows.value[i].Some? && rows.value[i].value != "" {
        known := known + [rows.value[i].value];
      }
    }
    assert rows.value[..|rows.value|] == rows.value;
    for i := 0 to |known|
      invariant forall j :: 0 <= j < i ==> !equalFold(known[j], requested)
    {
      if equalFold(known[i], requested) {
        assert known[i] in known;
        return Some(known[i]);
      }
    }
    var matches: seq<string> := [];
    for i := 0 to |known|
      invariant matches == Matching(known[..i], lower(requested), lower)
    {
      assert known[..i + 1][..i] == known[..i];
      if Contains(lower(known[i]), lower(requested)) {
        matches := matches + [known[i]];
      }
    }
    assert known[..|known|] == known;
    return if |matches| == 1 then Some(matches[0]) else None;
  }

  predicate OccursAt(s: string, part: string, k: int) {
    0 <= k <= |s| && part <= s[k..]
  }

  /** Being contained is to occur at some position. */
  lemma {:induction false} ContainsIff(s: string, part: string)
    ensures Contains(s, part) <==> exists k :: OccursAt(s, part, k)
  {
    if part <= s {
      assert s[0..] == s;
      assert OccursAt(s, part, 0);
    } else {
      forall k | OccursAt(s, part, k) ensures Contains(s, part) {
        assert k > 0 by { assert s[0..] == s; }
        ContainsIff(s[1..], part);
        assert s[1..][k - 1..] == s[k..];
        assert OccursAt(s[1..], part, k - 1);
      }
      if Contains(s, part) {
        ContainsIff(s[1..], part);
        var k :| OccursAt(s[1..], part, k);
        assert s[1..][k..] == s[k + 1..];
        assert OccursAt(s, part, k + 1);
      }
    }
  }

  /** The values a device reports are the non-empty strings of the lookup, each as often and in the order it occurs. */
  lemma {:induction false} StringsConcat(a: seq<Option<string>>, b: seq<Option<string>>)
    ensures Strings(a + b) == Strings(a) + Strings(b)
    ensures |b| == 1 ==> Strings(b) == if b[0].Some? && b[0].value != "" then [b[0].value] else []
  {
    if b == [] {
      assert a + b == a;
    } else {
      assert (a + b)[..|a + b| - 1] == a + b[..|b| - 1];
      StringsConcat(a, b[..|b| - 1]);
      if |b| == 1 {
        assert b[..0] == [];
      }
    }
  }

  lemma {:induction false} MatchingConcat(a: seq<string>, b: seq<string>, part: string, lower: string -> string)
    ensures Matching(a + b, part, lower) == Matching(a, part, lower) + Matching(b, part, lower)
    ensures |b| == 1 ==> Matching(b, part, lower) == if Contains(lower(b[0]), part) then b else []
  {
    hide Contains;
    if b == [] {
      assert a + b == a;
    } else {
      assert (a + b)[..|a + b| - 1] == a + b[..|b| - 1];
      MatchingConcat(a, b[..|b| - 1], part, lower);
      if |b| == 1 {
        assert b[..0] == [] && b == [b[0]];
      }
    }
  }

  /** What was matched comes from the known values and contains the text. */
  lemma {:induction false} MatchingExact(known: seq<string>, part: string, lower: string -> string)
    ensures forall v :: v in Matching(known, part, lower) <==> v in known && Contains(lower(v), part)
  {
    if known != [] {
      MatchingExact(known[..|known| - 1], part, lower);
      assert known == known[..|known| - 1] + [known[|known| - 1]];
    }
  }
}
