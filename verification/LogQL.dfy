/** The LogQL query printer: user text goes into double-quoted literals, and no text can end its
    literal early or change how the query splits into selector and filters. */
module LogQL {

  const QUOTE := '"'
  const BACKSLASH := '\\'

  /** strings.ReplaceAll with a one-character pattern. */
  function ReplaceAll(s: string, c: char, rep: string): string {
    if |s| == 0 then "" else (if s[0] == c then rep else [s[0]]) + ReplaceAll(s[1..], c, rep)
  }

  /** The two passes of escapeLogQL: backslashes first, then quotes. */
  function EscapeLogQL(s: string): string {
    ReplaceAll(ReplaceAll(s, BACKSLASH, [BACKSLASH, BACKSLASH]), QUOTE, [BACKSLASH, QUOTE])
  }

  /** Escaping in one pass, character by character. */
  function Escape(s: string): string {
    if |s| == 0 then ""
    else (if s[0] == QUOTE || s[0] == BACKSLASH then [BACKSLASH, s[0]] else [s[0]]) + Escape(s[1..])
  }

  predicate Special(c: char) {
    c == QUOTE || c == BACKSLASH
  }

  lemma {:induction false} ReplaceConcat(a: string, b: string, c: char, rep: string)
    ensures ReplaceAll(a + b, c, rep) == ReplaceAll(a, c, rep) + ReplaceAll(b, c, rep)
  {
    if |a| == 0 {
      assert a + b == b;
    } else {
      assert (a + b)[1..] == a[1..] + b;
      ReplaceConcat(a[1..], b, c, rep);
    }
  }

  /** The second pass does not touch what the first one wrote. */
  lemma {:induction false} EscapeInOnePass(s: string)
    ensures EscapeLogQL(s) == Escape(s)
  {
    if |s| > 0 {
      var c := s[0];
      var head := if c == BACKSLASH then [BACKSLASH, BACKSLASH] else [c];
      EscapeInOnePass(s[1..]);
      ReplaceConcat(head, ReplaceAll(s[1..], BACKSLASH, [BACKSLASH, BACKSLASH]), QUOTE, [BACKSLASH, QUOTE]);
      ReplaceOne(c);
    }
  }

  lemma ReplaceOne(c: char)
    ensures ReplaceAll(if c == BACKSLASH then [BACKSLASH, BACKSLASH] else [c], QUOTE, [BACKSLASH, QUOTE])
         == if Special(c) then [BACKSLASH, c] else [c]
  {
    ReplaceSingle(c);
    ReplaceConcat([BACKSLASH], [BACKSLASH], QUOTE, [BACKSLASH, QUOTE]);
    assert [BACKSLASH, BACKSLASH] == [BACKSLASH] + [BACKSLASH];
  }

  lemma ReplaceSingle(c: char)
    ensures ReplaceAll([c], QUOTE, [BACKSLASH, QUOTE]) == if c == QUOTE then [BACKSLASH, QUOTE] else [c]
  {
    assert [c][1..] == "";
  }

  // ---------------------------------------------------------------- reading a literal

  /** What a reader of a double-quoted literal makes of s, which starts behind the opening quote:
      the text up to the first quote that is not escaped, and the rest behind it. The reader
      knows no escapes but those of the quote and the backslash, and refuses any other. */
  datatype Literal = Literal(text: string, rest: string) | Unterminated

  function ReadLiteral(s: string): Literal {
    if |s| == 0 then Unterminated
    else if s[0] == QUOTE then Literal("", s[1..])
    else if s[0] == BACKSLASH then
      if |s| == 1 || !Special(s[1]) then Unterminated else Prepend(s[1], ReadLiteral(s[2..]))
    else Prepend(s[0], ReadLiteral(s[1..]))
  }

  function Prepend(c: char, l: Literal): Literal {
    if l.Unterminated? then l else Literal([c] + l.text, l.rest)
  }

  /** Reading an escaped text gives the text back and stops exactly at its own closing quote,
      whatever follows. */
  lemma {:induction false} LiteralRoundTrip(text: string, rest: string)
    ensures ReadLiteral(Escape(text) + [QUOTE] + rest) == Literal(text, rest)
  {
    if |text| == 0 {
      assert (Escape(text) + [QUOTE] + rest)[1..] == rest;
    } else {
      var c, tail := text[0], Escape(text[1..]) + [QUOTE] + rest;
      LiteralRoundTrip(text[1..], rest);
      ReadOne(c, tail);
      assert text == [c] + text[1..];
      assert Escape(text) + [QUOTE] + rest == (if Special(c) then [BACKSLASH, c] else [c]) + tail;
    }
  }

  lemma ReadOne(c: char, tail: string)
    ensures ReadLiteral((if Special(c) then [BACKSLASH, c] else [c]) + tail) == Prepend(c, ReadLiteral(tail))
  {
    if Special(c) {
      assert ([BACKSLASH, c] + tail)[2..] == tail;
    } else {
      assert ([c] + tail)[1..] == tail;
    }
  }

  /** The branch that skips escaping: a text without special characters is its own escape. */
  lemma {:induction false} PlainIsEscaped(text: string)
    requires forall i :: 0 <= i < |text| ==> !Special(text[i])
    ensures Escape(text) == text
  {
    if |text| > 0 {
      assert text == [text[0]] + text[1..];
      PlainIsEscaped(text[1..]);
    }
  }

  // ---------------------------------------------------------------- the query

  datatype QueryError = TextControl | TextTooLong | RegexControl | RegexTooLong | RegexInvalid | RegexTooComplex

  datatype Built = Query(text: string) | Rejected(error: QueryError)

  const MAX_FILTER := 200
  const TEXT_OPERATOR := " |= \""
  const REGEX_OPERATOR := " |~ \""

  /** The library functions that the printer calls. */
  datatype TextOps = TextOps(trim: string -> string, hasControl: string -> bool, compiles: string -> bool)

  predicate ContainsSpecial(s: string) {
    exists i :: 0 <= i < |s| && Special(s[i])
  }

  function Count(s: string, c: char): nat {
    if |s| == 0 then 0 else (if s[0] == c then 1 else 0) + Count(s[1..], c)
  }

  /** The literal body as printed: escaping is skipped when nothing needs it. */
  function Printed(text: string): string {
    if ContainsSpecial(text) then EscapeLogQL(text) else text
  }

  function TextError(ops: TextOps, text: string): seq<QueryError> {
    if text == "" then []
    else if ops.hasControl(text) then [TextControl]
    else if |Printed(text)| > MAX_FILTER then [TextTooLong]
    else []
  }

  function RegexError(ops: TextOps, rx: string): seq<QueryError> {
    if rx == "" then []
    else if ops.hasControl(rx) then [RegexControl]
    else if |rx| > MAX_FILTER then [RegexTooLong]
    else if !ops.compiles(rx) then [RegexInvalid]
    else if Count(rx, '+') + Count(rx, '*') > 8 then [RegexTooComplex]
    else []
  }

  /** A filter with its literal, or nothing for an empty one. */
  function Filter(operator: string, text: string): string {
    if text == "" then "" else operator + Escape(text) + [QUOTE]
  }

  lemma {:induction false} CountIsMultiset(s: string, c: char)
    ensures Count(s, c) == multiset(s)[c]
  {
    if |s| > 0 {
      CountIsMultiset(s[1..], c);
      assert s == [s[0]] + s[1..];
    }
  }

  /** An escaped text is longer by one for each quote and each backslash. */
  lemma {:induction false} EscapeLength(s: string)
    ensures |Escape(s)| == |s| + multiset(s)['"'] + multiset(s)['\\']
  {
    if |s| > 0 {
      EscapeLength(s[1..]);
      assert s == [s[0]] + s[1..];
    }
  }

  lemma PrintedIsEscaped(text: string)
    ensures Printed(text) == Escape(text)
  {
    if ContainsSpecial(text) {
      EscapeInOnePass(text);
    } else {
      PlainIsEscaped(text);
    }
  }

  /** Why a search text is refused, in the order of the checks. */
  lemma TextErrorMeaning(ops: TextOps, text: string)
    ensures TextError(ops, text) ==
            if text == "" then []
            else if ops.hasControl(text) then [TextControl]
            else if |text| + multiset(text)['"'] + multiset(text)['\\'] > 200 then [TextTooLong]
            else []
  {
    PrintedIsEscaped(text);
    EscapeLength(text);
  }

  /** Why a regex is refused, in the order of the checks. */
  lemma RegexErrorMeaning(ops: TextOps, rx: string)
    ensures RegexError(ops, rx) ==
            if rx == "" then []
            else if ops.hasControl(rx) then [RegexControl]
            else if |rx| > 200 then [RegexTooLong]
            else if !ops.compiles(rx) then [RegexInvalid]
            else if multiset(rx)['+'] + multiset(rx)['*'] > 8 then [RegexTooComplex]
            else []
  {
    CountIsMultiset(rx, '+');
    CountIsMultiset(rx, '*');
  }

  /** The text and the regex pass every check. */
  ghost predicate Allowed(ops: TextOps, text: string, rx: string) {
    && (text != "" ==> !ops.hasControl(text) && |text| + multiset(text)['"'] + multiset(text)['\\'] <= 200)
    && (rx != "" ==> !ops.hasControl(rx) && |rx| <= 200 && ops.compiles(rx)
                     && multiset(rx)['+'] + multiset(rx)['*'] <= 8)
  }

  lemma AllowedIff(ops: TextOps, text: string, rx: string)
    ensures Allowed(ops, text, rx) <==> |TextError(ops, text) + RegexError(ops, rx)| == 0
  {
    TextErrorMeaning(ops, text);
    RegexErrorMeaning(ops, rx);
  }

  /** The two filters, letter by letter. */
  function Literals(text: string, rx: string): (string, string) {
    (if text == "" then "" else " |= \"" + Escape(text) + "\"", if rx == "" then "" else " |~ \"" + Escape(rx) + "\"")
  }

  lemma FilterLiterals(text: string, rx: string)
    ensures (Filter(TEXT_OPERATOR, text), Filter(REGEX_OPERATOR, rx)) == Literals(text, rx)
  {
  }

  /** The text filter; the length bound applies to the text as printed. */
  method AddText(ops: TextOps, q: string, text: string) returns (errors: seq<QueryError>, r: string)
    ensures errors == TextError(ops, text)
    ensures errors == [] ==> r == q + Filter(TEXT_OPERATOR, text)
  {
    errors, r := [], q;
    if text != "" {
      if ops.hasControl(text) {
        return [TextControl], r;
      }
      var body := text;
      if ContainsSpecial(text) {
        body := EscapeLogQL(text);
      }
      PrintedIsEscaped(text);
      if |body| > MAX_FILTER {
        return [TextTooLong], r;
      }
      r := q + TEXT_OPERATOR + body + [QUOTE];
      assert r == q + (TEXT_OPERATOR + body + [QUOTE]);
    }
  }

  /** The regex filter; the length bound applies to the regex as given. */
  method AddRegex(ops: TextOps, q: string, rx: string) returns (errors: seq<QueryError>, r: string)
    ensures errors == RegexError(ops, rx)
    ensures errors == [] ==> r == q + Filter(REGEX_OPERATOR, rx)
  {
    errors, r := [], q;
    if rx != "" {
      if ops.hasControl(rx) {
        return [RegexControl], r;
      }
      if |rx| > MAX_FILTER {
        return [RegexTooLong], r;
      }
      if !ops.compiles(rx) {
        return [RegexInvalid], r;
      }
      if Count(rx, '+') + Count(rx, '*') > 8 {
        return [RegexTooComplex], r;
      }
      EscapeInOnePass(rx);
      r := q + REGEX_OPERATOR + EscapeLogQL(rx) + [QUOTE];
      assert r == q + (REGEX_OPERATOR + Escape(rx) + [QUOTE]);
    }
  }

  /** buildQuery: the error of the first check that fails, or the selector with both filters. */
  method BuildQuery(ops: TextOps, selector: string, text: string, rx: string) returns (r: Built)
    ensures r.Query? <==> Allowed(ops, text, rx)
    ensures r.Query? ==> r.text == ops.trim(selector) + Literals(text, rx).0 + Literals(text, rx).1
    ensures var errors := TextError(ops, text) + RegexError(ops, rx);
            r == if |errors| > 0 then Rejected(errors[0])
                 else Query(ops.trim(selector) + Filter(TEXT_OPERATOR, text) + Filter(REGEX_OPERATOR, rx))
  {
    AllowedIff(ops, text, rx);
    FilterLiterals(text, rx);
    var q := ops.trim(selector);
    var errors;
    errors, q := AddText(ops, q, text);
    if |errors| > 0 {
      return Rejected(errors[0]);
    }
    errors, q := AddRegex(ops, q, rx);
    if |errors| > 0 {
      return Rejected(errors[0]);
    }
    return Query(q);
  }

  // ---------------------------------------------------------------- reading the query back

  /** The filters of a query, read from behind its selector: an optional text filter, then an
      optional regex filter, and the rest that is neither. */
  datatype Filters = Filters(text: string, rx: string, rest: string)

  predicate StartsWith(s: string, prefix: string) {
    |prefix| <= |s| && s[..|prefix|] == prefix
  }

  function ReadFilter(s: string, operator: string): (string, string) {
    if StartsWith(s, operator) && ReadLiteral(s[|operator|..]).Literal? then
      (ReadLiteral(s[|operator|..]).text, ReadLiteral(s[|operator|..]).rest)
    else ("", s)
  }

  function ReadFilters(s: string): Filters {
    var (text, rest) := ReadFilter(s, TEXT_OPERATOR);
    var (rx, rest') := ReadFilter(rest, REGEX_OPERATOR);
    Filters(text, rx, rest')
  }

  lemma ReadFilterRoundTrip(operator: string, text: string, rest: string)
    requires text != "" || !StartsWith(rest, operator)
    ensures ReadFilter(Filter(operator, text) + rest, operator) == (text, rest)
  {
    if text == "" {
      assert Filter(operator, text) + rest == rest;
    } else {
      var s := Filter(operator, text) + rest;
      assert s == operator + (Escape(text) + [QUOTE] + rest);
      assert s[..|operator|] == operator && s[|operator|..] == Escape(text) + [QUOTE] + rest;
      LiteralRoundTrip(text, rest);
    }
  }

  /** For every text and regex, special characters included, the printed filters read back as
      exactly that text and that regex with nothing left over. */
  lemma QueryRoundTrip(text: string, rx: string)
    ensures ReadFilters(Filter(TEXT_OPERATOR, text) + Filter(REGEX_OPERATOR, rx)) == Filters(text, rx, "")
  {
    var second := Filter(REGEX_OPERATOR, rx);
    if rx != "" {
      assert second[..|REGEX_OPERATOR|] == REGEX_OPERATOR;
      assert second[2] == '~' && TEXT_OPERATOR[2] == '=';
    }
    assert !StartsWith(second, TEXT_OPERATOR);
    ReadFilterRoundTrip(TEXT_OPERATOR, text, second);
    assert !StartsWith("", REGEX_OPERATOR);
    assert second + "" == second;
    ReadFilterRoundTrip(REGEX_OPERATOR, rx, "");
  }

  /** Two requests with one selector print the same query only if they ask for the same thing. */
  lemma QueryIsInjective(text: string, rx: string, text': string, rx': string)
    requires Filter(TEXT_OPERATOR, text) + Filter(REGEX_OPERATOR, rx)
          == Filter(TEXT_OPERATOR, text') + Filter(REGEX_OPERATOR, rx')
    ensures text == text' && rx == rx'
  {
    QueryRoundTrip(text, rx);
    QueryRoundTrip(text', rx');
  }
}
