/** The translation step of utils/query_generator.py: the prompt that asks the
    model for SQL, the extraction of the <reasoning> and <sql> spans from its
    reply, and the shaping of an execution outcome into a result record. */
module QueryGenerator {
  import opened Text
  import opened Engine
  import SchemaAnalyzer

  const ReasoningOpen := "<reasoning>"
  const ReasoningClose := "</reasoning>"
  const SqlOpen := "<sql>"
  const SqlClose := "</sql>"

  /** What the reasoning field holds when the reply has no reasoning span. */
  const ReasoningPlaceholder := "분석 중..."
  /** What the sql field holds when the reply has no sql span: an SQL comment. */
  const SqlPlaceholder := "-- SQL 생성 실패"

  // ---------------------------------------------------------------------
  // The prompt
  // ---------------------------------------------------------------------

  const TranslationIntro := "\n당신은 SQLite 전문가입니다. 사용자의 질문을 SQL 쿼리로 변환해주세요.\n\n<데이터베이스 스키마>\n"
  const TranslationMiddle := "\n\n<사용자 질문>\n"
  const TranslationOutro := "\n\n응답 형식을 **반드시** 아래와 같이 작성하세요:\n\n<reasoning>\n사용자가 원하는 것을 어떻게 해석했는지, 어떤 테이블과 컬럼을 사용할지 설명\n</reasoning>\n\n<sql>\nSELECT ...\nFROM ...\n</sql>\n\n주의사항:\n- 스키마에 없는 테이블이나 컬럼은 절대 사용하지 마세요\n- SQL은 실행 가능한 완전한 쿼리여야 합니다\n- SQLite 문법을 사용하세요\n"

  /** The translation prompt: the schema text and then the question, both verbatim. */
  function TranslationPrompt(schemaText: string, question: string): (p: string)
    ensures OccursAt(TranslationIntro, p, 0)
    ensures OccursAt(schemaText, p, |TranslationIntro|)
    ensures OccursAt(question, p, |TranslationIntro| + |schemaText| + |TranslationMiddle|)
    ensures OccursAt(TranslationOutro, p, |TranslationIntro| + |schemaText| + |TranslationMiddle| + |question|)
    ensures |p| == |TranslationIntro| + |schemaText| + |TranslationMiddle| + |question| + |TranslationOutro|
  {
    TranslationIntro + schemaText + TranslationMiddle + question + TranslationOutro
  }

  // ---------------------------------------------------------------------
  // Searching for a tagged span
  // ---------------------------------------------------------------------

  /** The bounds of a captured group: it is s[lo..hi]. */
  datatype Span = Span(lo: nat, hi: nat)

  /** s holds an opening tag followed, at or after its end, by a closing tag. */
  ghost predicate HasPair(open: string, close: string, s: string) {
    exists i: nat, j: nat :: OccursAt(open, s, i) && i + |open| <= j && OccursAt(close, s, j)
  }

  /** re.search(open + "(.*?)" + close, s, re.DOTALL): the group of the match
      that starts leftmost, its end being the first close after that open. */
  function Search(open: string, close: string, s: string): Option<Span> {
    match FindFrom(open, s, 0)
    case None => None
    case Some(o) =>
      match FindFrom(close, s, o + |open|)
      case None => None
      case Some(c) => Some(Span(o + |open|, c))
  }

  /** The group found lies after an open tag that has no earlier occurrence,
      and ends at the first close tag at or after that open tag's end. */
  lemma SearchSpec(open: string, close: string, s: string)
    ensures var m := Search(open, close, s);
            m.Some? ==> |open| <= m.value.lo <= m.value.hi <= |s|
                        && OccursAt(open, s, m.value.lo - |open|) && OccursAt(close, s, m.value.hi)
    ensures var m := Search(open, close, s);
            m.Some? ==> forall k: nat :: k < m.value.lo - |open| ==> !OccursAt(open, s, k)
    ensures var m := Search(open, close, s);
            m.Some? ==> forall k: nat :: m.value.lo <= k < m.value.hi ==> !OccursAt(close, s, k)
  {
    FindFromSpec(open, s, 0);
    var o := FindFrom(open, s, 0);
    if o.Some? {
      FindFromSpec(close, s, o.value + |open|);
    }
  }

  /** A match exists exactly when some open is followed by some close. */
  lemma SearchFindsPair(open: string, close: string, s: string)
    ensures Search(open, close, s).Some? <==> HasPair(open, close, s)
  {
    if HasPair(open, close, s) {
      var i: nat, j: nat :| OccursAt(open, s, i) && i + |open| <= j && OccursAt(close, s, j);
      PairFound(open, close, s, i, j);
    } else {
      MatchIsPair(open, close, s);
    }
  }

  /** A match is an open tag followed by a close tag. */
  lemma MatchIsPair(open: string, close: string, s: string)
    ensures Search(open, close, s).Some? ==> HasPair(open, close, s)
  {
    if Search(open, close, s).Some? {
      SearchSpec(open, close, s);
      var m := Search(open, close, s).value;
      var i: nat := m.lo - |open|;
      assert OccursAt(open, s, i) && i + |open| <= m.hi && OccursAt(close, s, m.hi);
    }
  }

  /** An open tag followed by a close tag makes the search match. */
  lemma PairFound(open: string, close: string, s: string, i: nat, j: nat)
    requires OccursAt(open, s, i) && i + |open| <= j && OccursAt(close, s, j)
    ensures Search(open, close, s).Some?
  {
    FindFromReaches(open, s, 0, i);
    var o := FindFrom(open, s, 0).value;
    FindFromReaches(close, s, o + |open|, j);
  }

  /** group(1) of the search, when there is a match. */
  function Group(open: string, close: string, s: string): Option<string> {
    match Search(open, close, s)
    case None => None
    case Some(span) => Some(s[span.lo..span.hi])
  }

  /** group(1).strip() of the search, or the placeholder when nothing matches. */
  function Extract(open: string, close: string, placeholder: string, s: string): string {
    match Group(open, close, s)
    case None => placeholder
    case Some(g) => Strip(g)
  }

  // ---------------------------------------------------------------------
  // Parsing the reply
  // ---------------------------------------------------------------------

  /** The dict generate_sql_from_question returns. */
  datatype Translation = Translation(reasoning: string, sql: string)

  /** The two extractions of generate_sql_from_question, each independent of the other. */
  function ParseTranslation(response: string): (t: Translation)
    ensures !HasPair(ReasoningOpen, ReasoningClose, response) ==> t.reasoning == ReasoningPlaceholder
    ensures !HasPair(SqlOpen, SqlClose, response) ==> t.sql == SqlPlaceholder
  {
    SearchFindsPair(ReasoningOpen, ReasoningClose, response);
    SearchFindsPair(SqlOpen, SqlClose, response);
    Translation(Extract(ReasoningOpen, ReasoningClose, ReasoningPlaceholder, response),
                Extract(SqlOpen, SqlClose, SqlPlaceholder, response))
  }

  /** generate_sql_from_question: the model is asked the translation prompt
      built from this catalog's schema text, and its reply is parsed. */
  function GenerateSqlFromQuestion(catalog: seq<CatalogTable>, question: string, ask: string -> string): Translation
  {
    var response := ask(TranslationPrompt(SchemaAnalyzer.SchemaText(catalog), question));
    ParseTranslation(response)
  }

  lemma TagsAreTags()
    ensures IsTag(ReasoningOpen) && IsTag(ReasoningClose) && IsTag(SqlOpen) && IsTag(SqlClose)
    ensures ReasoningOpen[1] == 'r' && ReasoningClose[1] == '/' && SqlOpen[1] == 's' && SqlClose[1] == '/'
  {
  }

  /** The extracted reasoning is the stripped text between the first
      <reasoning> and the first </reasoning> after it (newlines included). */
  lemma ReasoningIsFirstSpan(response: string, i: nat, j: nat)
    requires OccursAt(ReasoningOpen, response, i)
    requires forall k: nat :: k < i ==> !OccursAt(ReasoningOpen, response, k)
    requires i + |ReasoningOpen| <= j && OccursAt(ReasoningClose, response, j)
    requires forall k: nat :: i + |ReasoningOpen| <= k < j ==> !OccursAt(ReasoningClose, response, k)
    ensures ParseTranslation(response).reasoning == Strip(response[i + |ReasoningOpen|..j])
  {
    FindFromFirst(ReasoningOpen, response, 0, i);
    FindFromFirst(ReasoningClose, response, i + |ReasoningOpen|, j);
    GroupAt(ReasoningOpen, ReasoningClose, response, i, i + |ReasoningOpen|, j);
  }

  /** The extracted sql never contains a closing </sql>: the match stops at the first one. */
  lemma SqlHasNoCloseTag(response: string)
    ensures !Occurs(SqlClose, ParseTranslation(response).sql)
  {
    TagsAreTags();
    SearchSpec(SqlOpen, SqlClose, response);
    match Search(SqlOpen, SqlClose, response)
    case None =>
      NoTagWithoutBracket(SqlClose, SqlPlaceholder);
    case Some(span) =>
      var body := response[span.lo..span.hi];
      if Occurs(SqlClose, body) {
        var k: nat :| OccursAt(SqlClose, body, k);
        assert OccursAt(SqlClose, body, k);
        OccursInSlice(SqlClose, response, span.lo, span.hi, k);
        assert false;
      }
      NotInStrip(SqlClose, body);
  }

  /** A reply that starts with a reasoning span yields the stripped text of that span. */
  lemma {:induction false} ReasoningOfLayout(r: string, rest: string)
    requires !Occurs(ReasoningClose, r)
    ensures Extract(ReasoningOpen, ReasoningClose, ReasoningPlaceholder, ReasoningOpen + r + ReasoningClose + rest) == Strip(r)
  {
    TagsAreTags();
    var s := ReasoningOpen + r + ReasoningClose + rest;
    assert s[0..|ReasoningOpen|] == ReasoningOpen;
    assert FindFrom(ReasoningOpen, s, 0) == Some(0);
    FirstTagAfter(ReasoningClose, ReasoningOpen, r, rest);
    GroupAt(ReasoningOpen, ReasoningClose, s, 0, |ReasoningOpen|, |ReasoningOpen| + |r|);
    assert s[|ReasoningOpen|..|ReasoningOpen| + |r|] == r;
  }

  /** With no <sql> before it, an sql span closing the reply yields its stripped text. */
  lemma {:induction false} SqlOfLayout(before: string, s: string)
    requires !Occurs(SqlOpen, before) && !Occurs(SqlClose, s)
    ensures Extract(SqlOpen, SqlClose, SqlPlaceholder, before + SqlOpen + s + SqlClose) == Strip(s)
  {
    TagsAreTags();
    var response := before + SqlOpen + s + SqlClose;
    assert response == [] + before + SqlOpen + (s + SqlClose);
    FirstTagAfter(SqlOpen, [], before, s + SqlClose);
    assert response == before + SqlOpen + s + SqlClose + [];
    FirstTagAfter(SqlClose, before + SqlOpen, s, []);
    GroupAt(SqlOpen, SqlClose, response, |before|, |before + SqlOpen|, |before + SqlOpen| + |s|);
    assert response[|before| + |SqlOpen|..|before| + |SqlOpen| + |s|] == s;
  }

  /** A reasoning span and the text after it hold no <sql> when neither part does. */
  lemma SqlOpenNotInReasoning(r: string, x: string)
    requires !Occurs(SqlOpen, r) && !Occurs(SqlOpen, x)
    ensures !Occurs(SqlOpen, ReasoningOpen + r + ReasoningClose + x)
  {
    TagsAreTags();
    NoTagAfterTag(SqlOpen, ReasoningClose, x);
    NoTagInConcat(SqlOpen, r, ReasoningClose + x);
    assert r + (ReasoningClose + x) == r + ReasoningClose + x;
    NoTagAfterTag(SqlOpen, ReasoningOpen, r + ReasoningClose + x);
    assert ReasoningOpen + (r + ReasoningClose + x) == ReasoningOpen + r + ReasoningClose + x;
  }

  /** Round trip: a reply laid out as the prompt asks parses to the stripped
      reasoning and the stripped sql, provided neither holds its closing tag
      and no <sql> comes before the sql span. */
  lemma RoundTrip(r: string, x: string, s: string)
    requires !Occurs(ReasoningClose, r) && !Occurs(SqlClose, s)
    requires !Occurs(SqlOpen, r) && !Occurs(SqlOpen, x)
    ensures ParseTranslation(ReasoningOpen + r + ReasoningClose + x + SqlOpen + s + SqlClose)
            == Translation(Strip(r), Strip(s))
  {
    var before := ReasoningOpen + r + ReasoningClose + x;
    var response := before + SqlOpen + s + SqlClose;
    assert response == ReasoningOpen + r + ReasoningClose + (x + SqlOpen + s + SqlClose);
    ReasoningOfLayout(r, x + SqlOpen + s + SqlClose);
    SqlOpenNotInReasoning(r, x);
    SqlOfLayout(before, s);
  }

  /** Once the reply holds a complete reasoning span, whatever follows it
      (an sql span or anything else) leaves the reasoning unchanged. */
  lemma ReasoningIgnoresSuffix(head: string, tail: string)
    requires HasPair(ReasoningOpen, ReasoningClose, head)
    ensures ParseTranslation(head + tail).reasoning == ParseTranslation(head).reasoning
  {
    GroupExtends(ReasoningOpen, ReasoningClose, head, tail);
  }

  /** Once the reply holds a complete sql span, whatever follows it leaves the sql unchanged. */
  lemma SqlIgnoresSuffix(head: string, tail: string)
    requires HasPair(SqlOpen, SqlClose, head)
    ensures ParseTranslation(head + tail).sql == ParseTranslation(head).sql
  {
    GroupExtends(SqlOpen, SqlClose, head, tail);
  }

  /** A reasoning span, and whatever precedes it, is invisible to the sql
      extraction: removing both leaves the sql as it was, when neither holds
      an <sql> itself. */
  lemma SqlIgnoresReasoning(pre: string, r: string, rest: string)
    requires !Occurs(SqlOpen, pre) && !Occurs(SqlOpen, r)
    ensures ParseTranslation(pre + ReasoningOpen + r + ReasoningClose + rest).sql
            == ParseTranslation(rest).sql
  {
    TagsAreTags();
    var a := pre + ReasoningOpen + r + ReasoningClose;
    NoTagInLayout(SqlOpen, pre, ReasoningOpen, r, ReasoningClose);
    assert a[|a| - 1] == ReasoningClose[|ReasoningClose| - 1];
    NoTagBeforeRest(SqlOpen, a, rest);
    GroupShift(SqlOpen, SqlClose, a, rest);
  }

  /** The mirror image: an sql span, and whatever precedes it, is invisible to
      the reasoning extraction when neither holds a <reasoning>. */
  lemma ReasoningIgnoresSql(pre: string, s: string, rest: string)
    requires !Occurs(ReasoningOpen, pre) && !Occurs(ReasoningOpen, s)
    ensures ParseTranslation(pre + SqlOpen + s + SqlClose + rest).reasoning
            == ParseTranslation(rest).reasoning
  {
    TagsAreTags();
    var a := pre + SqlOpen + s + SqlClose;
    NoTagInLayout(ReasoningOpen, pre, SqlOpen, s, SqlClose);
    assert a[|a| - 1] == SqlClose[|SqlClose| - 1];
    NoTagBeforeRest(ReasoningOpen, a, rest);
    GroupShift(ReasoningOpen, ReasoningClose, a, rest);
  }

  /** A reply holding neither opening tag parses to the two placeholders,
      whatever else it holds; so does the "Error: ..." text the model client
      returns when the call fails, unless the error text itself holds a tag. */
  lemma UntaggedReply(response: string)
    requires !Occurs(ReasoningOpen, response) && !Occurs(SqlOpen, response)
    ensures ParseTranslation(response) == Translation(ReasoningPlaceholder, SqlPlaceholder)
  {
  }

  /** generate_sql_from_question end to end: when the model answers the
      translation prompt with a reply laid out as that prompt asks, the
      question translates to the stripped reasoning and the stripped sql. */
  lemma GenerateSqlOfLayout(catalog: seq<CatalogTable>, question: string, ask: string -> string,
                            r: string, x: string, s: string)
    requires ask(TranslationPrompt(SchemaAnalyzer.SchemaText(catalog), question))
             == ReasoningOpen + r + ReasoningClose + x + SqlOpen + s + SqlClose
    requires !Occurs(ReasoningClose, r) && !Occurs(SqlClose, s)
    requires !Occurs(SqlOpen, r) && !Occurs(SqlOpen, x)
    ensures GenerateSqlFromQuestion(catalog, question, ask) == Translation(Strip(r), Strip(s))
  {
    RoundTrip(r, x, s);
  }

  /** generate_sql_from_question end to end: when the model's reply holds
      neither <reasoning> nor <sql>, as the client's "Error: ..." text
      normally does, the question translates to the two placeholders. */
  lemma GenerateSqlOfUntaggedReply(catalog: seq<CatalogTable>, question: string, ask: string -> string)
    requires var reply := ask(TranslationPrompt(SchemaAnalyzer.SchemaText(catalog), question));
             !Occurs(ReasoningOpen, reply) && !Occurs(SqlOpen, reply)
    ensures GenerateSqlFromQuestion(catalog, question, ask) == Translation(ReasoningPlaceholder, SqlPlaceholder)
  {
    UntaggedReply(ask(TranslationPrompt(SchemaAnalyzer.SchemaText(catalog), question)));
  }

  /** An sql span holding only whitespace yields the empty string, not the placeholder. */
  lemma BlankSqlSpan(s: string)
    requires AllSpace(s) && !Occurs(SqlClose, s)
    ensures ParseTranslation(SqlOpen + s + SqlClose).sql == []
  {
    NoTagWithoutBracket(SqlOpen, []);
    assert [] + SqlOpen + s + SqlClose == SqlOpen + s + SqlClose;
    SqlOfLayout([], s);
    StripSpec(s);
  }

  /** The group once both tags are found. */
  lemma GroupAt(open: string, close: string, s: string, o: nat, from: nat, c: nat)
    requires FindFrom(open, s, 0) == Some(o) && from == o + |open| && FindFrom(close, s, from) == Some(c)
    ensures from <= c <= |s|
    ensures Group(open, close, s) == Some(s[from..c])
  {
    assert Search(open, close, s) == Some(Span(from, c));
  }

  /** Appending text after a match leaves the group as it was. */
  lemma GroupExtends(open: string, close: string, head: string, tail: string)
    requires HasPair(open, close, head)
    ensures Group(open, close, head + tail) == Group(open, close, head)
  {
    SearchFindsPair(open, close, head);
    SearchFinds(open, close, head);
    var span := Search(open, close, head).value;
    var o, from, c := span.lo - |open|, span.lo, span.hi;
    FindFromExtends(open, head, tail, 0);
    FindFromExtends(close, head, tail, from);
    GroupAt(open, close, head, o, from, c);
    GroupAt(open, close, head + tail, o, from, c);
    assert (head + tail)[from..c] == head[from..c];
  }

  /** A match is made of the two FindFrom results it came from. */
  lemma SearchFinds(open: string, close: string, s: string)
    requires Search(open, close, s).Some?
    ensures var span := Search(open, close, s).value;
            span.lo >= |open| && FindFrom(open, s, 0) == Some(span.lo - |open|)
            && FindFrom(close, s, span.lo) == Some(span.hi)
  {
  }

  /** A prefix in which no open tag starts is invisible to the search. */
  lemma GroupShift(open: string, close: string, a: string, rest: string)
    requires forall k: nat :: k < |a| ==> !OccursAt(open, a + rest, k)
    ensures Group(open, close, a + rest) == Group(open, close, rest)
  {
    FindFromSkip(open, a + rest, 0, |a|);
    GroupShiftFrom(open, close, a, rest);
  }

  lemma GroupShiftFrom(open: string, close: string, a: string, rest: string)
    requires FindFrom(open, a + rest, 0) == FindFrom(open, a + rest, |a|)
    ensures Group(open, close, a + rest) == Group(open, close, rest)
  {
    FindFromShift(open, a, rest, 0);
    assert |a| + 0 == |a|;
    var first := FindFrom(open, rest, 0);
    if first.None? {
      GroupNoOpen(open, close, rest);
      GroupNoOpen(open, close, a + rest);
    } else {
      GroupShiftOpen(open, close, a, rest, first.value);
    }
  }

  lemma GroupShiftOpen(open: string, close: string, a: string, rest: string, o: nat)
    requires FindFrom(open, rest, 0) == Some(o) && FindFrom(open, a + rest, 0) == Some(|a| + o)
    ensures Group(open, close, a + rest) == Group(open, close, rest)
  {
    var from := o + |open|;
    FindFromShift(close, a, rest, from);
    var last := FindFrom(close, rest, from);
    if last.None? {
      GroupShiftNoClose(open, close, a, rest, o, from);
    } else {
      GroupShiftSome(open, close, a, rest, o, from, last.value);
    }
  }

  lemma GroupShiftNoClose(open: string, close: string, a: string, rest: string, o: nat, from: nat)
    requires FindFrom(open, rest, 0) == Some(o) && from == o + |open| && FindFrom(close, rest, from).None?
    requires FindFrom(open, a + rest, 0) == Some(|a| + o) && FindFrom(close, a + rest, |a| + from).None?
    ensures Group(open, close, a + rest) == Group(open, close, rest)
  {
    GroupNoClose(open, close, rest, o, from);
    GroupNoClose(open, close, a + rest, |a| + o, |a| + from);
  }

  lemma GroupShiftSome(open: string, close: string, a: string, rest: string, o: nat, from: nat, c: nat)
    requires FindFrom(open, rest, 0) == Some(o) && from == o + |open| && FindFrom(close, rest, from) == Some(c)
    requires FindFrom(open, a + rest, 0) == Some(|a| + o)
    requires FindFrom(close, a + rest, |a| + from) == Some(|a| + c)
    ensures Group(open, close, a + rest) == Group(open, close, rest)
  {
    GroupAt(open, close, rest, o, from, c);
    GroupAt(open, close, a + rest, |a| + o, |a| + from, |a| + c);
    SliceOfConcat(a, rest, from, c);
  }

  lemma GroupNoOpen(open: string, close: string, s: string)
    requires FindFrom(open, s, 0).None?
    ensures Group(open, close, s).None?
  {
  }

  lemma GroupNoClose(open: string, close: string, s: string, o: nat, from: nat)
    requires FindFrom(open, s, 0) == Some(o) && from == o + |open| && FindFrom(close, s, from).None?
    ensures Group(open, close, s).None?
  {
  }

  /** Positions without an occurrence may be skipped. */
  lemma {:induction false} FindFromSkip(p: string, s: string, from: nat, to: nat)
    requires from <= to
    requires forall k: nat :: from <= k < to ==> !OccursAt(p, s, k)
    ensures FindFrom(p, s, from) == FindFrom(p, s, to)
    decreases (to as int) - (from as int)
  {
    if from < to {
      assert !OccursAt(p, s, from);
      FindFromSkip(p, s, from + 1, to);
    }
  }

  function Shift(m: Option<nat>, n: nat): Option<nat> {
    match m
    case None => None
    case Some(k) => Some(k + n)
  }

  /** Searching a + x from inside x finds what searching x finds, moved by |a|. */
  lemma {:induction false} FindFromShift(p: string, a: string, x: string, from: nat)
    ensures FindFrom(p, a + x, |a| + from) == Shift(FindFrom(p, x, from), |a|)
    decreases |x| - from
  {
    if from + |p| <= |x| {
      assert (a + x)[|a| + from..|a| + from + |p|] == x[from..from + |p|];
      if x[from..from + |p|] != p {
        FindFromShift(p, a, x, from + 1);
        assert |a| + from + 1 == |a| + (from + 1);
      }
    }
  }

  // ---------------------------------------------------------------------
  // Shaping an execution outcome
  // ---------------------------------------------------------------------

  /** The dict execute_sql returns: success with columns and rows, or failure with an error text. */
  datatype ExecutionResult =
    | Success(columns: seq<string>, rows: seq<Row>)
    | Failure(error: string)

  /** execute_sql over the engine's outcome: the column names come from the
      cursor description (none without one), every fetched row is passed on;
      any exception becomes a failure carrying its message. */
  function ShapeExecution(outcome: Outcome): (r: ExecutionResult)
    ensures r.Success? <==> outcome.Ran?
    ensures outcome.Ran? ==> r.rows == outcome.rows
    ensures outcome.Ran? && outcome.description.None? ==> r.columns == []
    ensures outcome.Ran? && outcome.description.Some? ==> r.columns == outcome.description.value
    ensures outcome.Failed? ==> r.error == outcome.message
  {
    match outcome
    case Failed(message) => Failure(message)
    case Ran(description, rows) =>
      var columns := if description.Some? then description.value else [];
      Success(columns, rows)
  }

  /** execute_sql(db_path, sql): runs the statement with the engine and shapes the outcome. */
  function ExecuteSql(engine: (string, string) -> Outcome, dbPath: string, sqlQuery: string): (r: ExecutionResult)
    ensures r.Failure? <==> engine(dbPath, sqlQuery).Failed?
    ensures r.Success? ==> r.rows == engine(dbPath, sqlQuery).rows
  {
    ShapeExecution(engine(dbPath, sqlQuery))
  }
}
