/** utils/schema_analyzer.py: the schema snapshot built from the catalog,
    the prompts that interpolate it, and the parsing of the model's numbered
    list of suggested questions. The SQLite catalog is given as data and the
    language model as a function from prompt to response text. */
module SchemaAnalyzer {
  import opened Text
  import opened Engine

  /** What get_database_schema keeps of one table. */
  datatype TableInfo = TableInfo(columns: seq<Column>, sampleData: seq<Row>)

  /** The dictionary get_database_schema returns. */
  datatype SchemaSnapshot = SchemaSnapshot(
    tables: seq<string>,
    schemaText: string,
    tableInfo: map<string, TableInfo>)

  /** `SELECT * FROM t LIMIT 3` */
  const SampleLimit := 3

  /** `queries[:5]` */
  const MaxSuggestions := 5

  /** SQLite keeps table names unique within a database. */
  ghost predicate DistinctNames(catalog: seq<CatalogTable>) {
    forall i, j :: 0 <= i < j < |catalog| ==> catalog[i].name != catalog[j].name
  }

  // ---------------------------------------------------------------------
  // The snapshot
  // ---------------------------------------------------------------------

  /** The table names in catalog order. */
  function TableNames(catalog: seq<CatalogTable>): (names: seq<string>)
    ensures |names| == |catalog|
    ensures forall i :: 0 <= i < |catalog| ==> names[i] == catalog[i].name
  {
    seq(|catalog|, i requires 0 <= i < |catalog| => catalog[i].name)
  }

  /** One create statement as it goes into schema_text. */
  function Statement(t: CatalogTable): string {
    t.createSql + ";\n\n"
  }

  /** The create statements in catalog order, each followed by ";\n\n". */
  function SchemaText(catalog: seq<CatalogTable>): string {
    if catalog == [] then ""
    else SchemaText(catalog[..|catalog| - 1]) + Statement(catalog[|catalog| - 1])
  }

  /** The first rows a `LIMIT 3` query returns. */
  function Sample(rows: seq<Row>): (r: seq<Row>)
    ensures |r| <= SampleLimit && |r| <= |rows| && r == rows[..|r|]
    ensures |r| == if |rows| < SampleLimit then |rows| else SampleLimit
  {
    if |rows| <= SampleLimit then rows else rows[..SampleLimit]
  }

  function InfoOf(t: CatalogTable): TableInfo {
    TableInfo(t.columns, Sample(t.rows))
  }

  /** table_info after the loop has visited every table of the catalog. */
  function TableInfoMap(catalog: seq<CatalogTable>): map<string, TableInfo> {
    if catalog == [] then map[]
    else TableInfoMap(catalog[..|catalog| - 1])[catalog[|catalog| - 1].name := InfoOf(catalog[|catalog| - 1])]
  }

  function Snapshot(catalog: seq<CatalogTable>): SchemaSnapshot {
    SchemaSnapshot(TableNames(catalog), SchemaText(catalog), TableInfoMap(catalog))
  }

  /** get_database_schema: walks the tables in catalog order, appending each
      create statement to schema_text and recording columns and up to three
      sample rows in table_info. */
  method GetDatabaseSchema(catalog: seq<CatalogTable>) returns (snap: SchemaSnapshot)
    ensures snap == Snapshot(catalog)
    ensures snap.tables == TableNames(catalog)
    ensures forall n :: n in snap.tableInfo ==> |snap.tableInfo[n].sampleData| <= SampleLimit
  {
    var tables := TableNames(catalog);
    var schemaText := "";
    var tableInfo: map<string, TableInfo> := map[];
    var i := 0;
    while i < |tables|
      invariant 0 <= i <= |tables|
      invariant schemaText == SchemaText(catalog[..i])
      invariant tableInfo == TableInfoMap(catalog[..i])
      invariant forall n :: n in tableInfo ==> |tableInfo[n].sampleData| <= SampleLimit
    {
      var table := catalog[i];
      assert catalog[..i + 1][..i] == catalog[..i];
      schemaText := schemaText + table.createSql + ";\n\n";
      tableInfo := tableInfo[tables[i] := TableInfo(table.columns, Sample(table.rows))];
      i := i + 1;
    }
    assert catalog[..i] == catalog;
    snap := SchemaSnapshot(tables, schemaText, tableInfo);
  }

  /** schema_text of two consecutive runs of tables is their concatenation. */
  lemma {:induction false} SchemaTextAppend(a: seq<CatalogTable>, b: seq<CatalogTable>)
    ensures SchemaText(a + b) == SchemaText(a) + SchemaText(b)
    decreases |b|
  {
    if b == [] {
      assert a + b == a;
    } else {
      var b' := b[..|b| - 1];
      assert (a + b)[..|a + b| - 1] == a + b';
      assert (a + b)[|a + b| - 1] == b[|b| - 1];
      assert SchemaText(a + b) == SchemaText(a + b') + Statement(b[|b| - 1]);
      SchemaTextAppend(a, b');
    }
  }

  /** Table i's statement sits in schema_text right after the statements of
      the tables before it: schema_text keeps catalog order and leaves out none. */
  lemma StatementInPlace(catalog: seq<CatalogTable>, i: nat)
    requires i < |catalog|
    ensures OccursAt(Statement(catalog[i]), SchemaText(catalog), |SchemaText(catalog[..i])|)
  {
    var pre, rest := catalog[..i], catalog[i + 1..];
    assert catalog == pre + [catalog[i]] + rest;
    SchemaTextAppend(pre + [catalog[i]], rest);
    SchemaTextAppend(pre, [catalog[i]]);
    assert SchemaText([catalog[i]]) == Statement(catalog[i]) by {
      assert [catalog[i]][..0] == [];
    }
    var s := SchemaText(catalog);
    var n := |SchemaText(pre)|;
    assert s == SchemaText(pre) + Statement(catalog[i]) + SchemaText(rest);
    assert s[n..n + |Statement(catalog[i])|] == Statement(catalog[i]);
  }

  /** Every key of table_info is the name of a catalog table. */
  lemma {:induction false} TableInfoKeys(catalog: seq<CatalogTable>)
    ensures forall n :: n in TableInfoMap(catalog) ==> exists j :: 0 <= j < |catalog| && catalog[j].name == n
  {
    if catalog != [] {
      var pre := catalog[..|catalog| - 1];
      TableInfoKeys(pre);
      forall n | n in TableInfoMap(catalog)
        ensures exists j :: 0 <= j < |catalog| && catalog[j].name == n
      {
        if n != catalog[|catalog| - 1].name {
          assert n in TableInfoMap(pre);
          var j :| 0 <= j < |pre| && pre[j].name == n;
          assert catalog[j].name == n;
        }
      }
    }
  }

  /** Every catalog table has its entry in table_info, holding its columns and
      its first rows (at most SampleLimit of them). */
  lemma {:induction false} TableInfoEntries(catalog: seq<CatalogTable>)
    requires DistinctNames(catalog)
    ensures forall i :: 0 <= i < |catalog| ==>
              catalog[i].name in TableInfoMap(catalog) && TableInfoMap(catalog)[catalog[i].name] == InfoOf(catalog[i])
  {
    if catalog != [] {
      var pre := catalog[..|catalog| - 1];
      TableInfoEntries(pre);
      forall i | 0 <= i < |pre|
        ensures catalog[i].name in TableInfoMap(catalog)
        ensures TableInfoMap(catalog)[catalog[i].name] == InfoOf(catalog[i])
      {
        assert pre[i] == catalog[i];
      }
    }
  }

  /** table_info has exactly one entry per catalog table. */
  lemma {:induction false} TableInfoSize(catalog: seq<CatalogTable>)
    requires DistinctNames(catalog)
    ensures |TableInfoMap(catalog)| == |catalog|
  {
    if catalog != [] {
      var pre := catalog[..|catalog| - 1];
      var last := catalog[|catalog| - 1];
      TableInfoSize(pre);
      TableInfoKeys(pre);
      assert last.name !in TableInfoMap(pre);
    }
  }

  // ---------------------------------------------------------------------
  // Prompts
  // ---------------------------------------------------------------------

  const AnalysisIntro := "\n당신은 데이터베이스 전문가입니다. 아래 SQLite 데이터베이스의 구조를 분석하고 사용자가 이해하기 쉽게 설명해주세요.\n\n<데이터베이스 스키마>\n"
  const AnalysisOutro := "\n\n다음 형식으로 설명해주세요:\n1. 이 데이터베이스가 다루는 도메인/주제\n2. 각 테이블의 역할 (2-3문장으로 간단히)\n3. 테이블 간 관계 (FK가 있다면)\n\n간결하고 명확하게 작성해주세요.\n"

  const SuggestionIntro := "\n당신은 데이터 분석가입니다. 아래 데이터베이스를 보고, 사용자가 물어볼 만한 **유용하고 구체적인 질문 5개**를 제안해주세요.\n\n<데이터베이스 스키마>\n"
  const SuggestionOutro := "\n\n조건:\n- 실제 비즈니스 인사이트를 얻을 수 있는 질문\n- JOIN이 필요한 질문 포함\n- 집계 함수(SUM, COUNT, AVG 등)를 사용하는 질문 포함\n\n형식:\n1. 질문1\n2. 질문2\n3. 질문3\n4. 질문4\n5. 질문5\n\n번호와 질문만 작성하고, 추가 설명은 불필요합니다.\n"

  /** The schema-explanation prompt: the schema text appears verbatim after the fixed instructions. */
  function AnalysisPrompt(schemaText: string): (p: string)
    ensures OccursAt(AnalysisIntro, p, 0) && OccursAt(schemaText, p, |AnalysisIntro|)
    ensures OccursAt(AnalysisOutro, p, |AnalysisIntro| + |schemaText|)
    ensures |p| == |AnalysisIntro| + |schemaText| + |AnalysisOutro|
  {
    AnalysisIntro + schemaText + AnalysisOutro
  }

  /** The suggestion prompt: the schema text appears verbatim, followed by the numbered-list instructions. */
  function SuggestionPrompt(schemaText: string): (p: string)
    ensures OccursAt(SuggestionIntro, p, 0) && OccursAt(schemaText, p, |SuggestionIntro|)
    ensures OccursAt(SuggestionOutro, p, |SuggestionIntro| + |schemaText|)
    ensures |p| == |SuggestionIntro| + |schemaText| + |SuggestionOutro|
  {
    SuggestionIntro + schemaText + SuggestionOutro
  }

  /** analyze_schema_with_llm: the model's answer to the explanation prompt, returned as it is. */
  method AnalyzeSchemaWithLlm(catalog: seq<CatalogTable>, ask: string -> string) returns (analysis: string)
    ensures analysis == ask(AnalysisPrompt(SchemaText(catalog)))
  {
    var info := GetDatabaseSchema(catalog);
    analysis := ask(AnalysisPrompt(info.schemaText));
  }

  // ---------------------------------------------------------------------
  // Parsing the suggested questions
  // ---------------------------------------------------------------------

  /** A stripped line that starts an enumerated item: non-empty, and its
      first character is a digit or '-'. */
  predicate Qualifies(line: string) {
    line != [] && (IsDigit(line[0]) || line[0] == '-')
  }

  /** Removes the enumerator of a qualifying line: the text after the first
      '.', or, with no '.', the line without its leading dashes; stripped. */
  function StripEnumerator(line: string): string {
    if '.' in line then Strip(line[IndexOf(line, '.') + 1..]) else Strip(LStripChar(line, '-'))
  }

  /** What one raw line contributes to the list. */
  function Kept(raw: string): (r: seq<string>)
    ensures |r| <= 1
    ensures r != [] <==> Qualifies(Strip(raw))
  {
    var line := Strip(raw);
    if Qualifies(line) then [StripEnumerator(line)] else []
  }

  /** The list the loop has built after visiting the given lines. */
  function Collected(lines: seq<string>): seq<string> {
    if lines == [] then []
    else Collected(lines[..|lines| - 1]) + Kept(lines[|lines| - 1])
  }

  function Take(s: seq<string>, n: nat): (r: seq<string>)
    ensures |r| <= n && |r| <= |s| && r == s[..|r|]
    ensures |s| >= n ==> |r| == n
  {
    if |s| <= n then s else s[..n]
  }

  /** The suggestions parsed from a model response. */
  function SuggestionList(response: string): seq<string> {
    Take(Collected(Split(Strip(response), '\n')), MaxSuggestions)
  }

  /** The parsing loop of suggest_queries_with_llm: strip the response, split
      it into lines, keep the enumerated ones without their enumerators, and
      return at most the first five. */
  method ParseSuggestions(response: string) returns (queries: seq<string>)
    ensures queries == SuggestionList(response)
    ensures |queries| <= MaxSuggestions
  {
    var lines := Split(Strip(response), '\n');
    var all: seq<string> := [];
    var i := 0;
    while i < |lines|
      invariant 0 <= i <= |lines|
      invariant all == Collected(lines[..i])
    {
      var line := Strip(lines[i]);
      if Qualifies(line) {
        all := all + [StripEnumerator(line)];
      }
      CollectedSnoc(lines, i);
      i := i + 1;
    }
    assert lines[..i] == lines;
    queries := if |all| <= MaxSuggestions then all else all[..MaxSuggestions];
  }

  /** One more line visited extends the list by what that line contributes. */
  lemma CollectedSnoc(lines: seq<string>, i: nat)
    requires i < |lines|
    ensures Collected(lines[..i + 1]) == Collected(lines[..i]) + Kept(lines[i])
  {
    assert lines[..i + 1][..i] == lines[..i];
  }

  /** suggest_queries_with_llm: the parsed answer to the suggestion prompt. */
  method SuggestQueriesWithLlm(catalog: seq<CatalogTable>, ask: string -> string) returns (queries: seq<string>)
    ensures queries == SuggestionList(ask(SuggestionPrompt(SchemaText(catalog))))
    ensures |queries| <= MaxSuggestions
  {
    var info := GetDatabaseSchema(catalog);
    var response := ask(SuggestionPrompt(info.schemaText));
    queries := ParseSuggestions(response);
  }

  /** Indices of the lines that qualify once stripped, in increasing order. */
  function QualifyingIndices(lines: seq<string>): (ix: seq<nat>)
    ensures forall k :: 0 <= k < |ix| ==> ix[k] < |lines| && Qualifies(Strip(lines[ix[k]]))
    ensures forall a, b :: 0 <= a < b < |ix| ==> ix[a] < ix[b]
    ensures forall i :: 0 <= i < |lines| && Qualifies(Strip(lines[i])) ==> i in ix
  {
    if lines == [] then []
    else
      var pre := lines[..|lines| - 1];
      assert forall i :: 0 <= i < |pre| ==> pre[i] == lines[i];
      QualifyingIndices(pre) + (if Qualifies(Strip(lines[|lines| - 1])) then [|lines| - 1] else [])
  }

  /** The k-th collected suggestion comes from the k-th qualifying line:
      only qualifying lines contribute, each exactly once, in their order. */
  lemma {:induction false} CollectedSpec(lines: seq<string>)
    ensures |Collected(lines)| == |QualifyingIndices(lines)|
    ensures forall k :: 0 <= k < |Collected(lines)| ==>
              Collected(lines)[k] == StripEnumerator(Strip(lines[QualifyingIndices(lines)[k]]))
  {
    if lines != [] {
      var pre := lines[..|lines| - 1];
      var last := lines[|lines| - 1];
      CollectedSpec(pre);
      var c, q := Collected(pre), QualifyingIndices(pre);
      assert Collected(lines) == c + Kept(last);
      assert QualifyingIndices(lines) == q + (if Qualifies(Strip(last)) then [|lines| - 1] else []);
      forall k | 0 <= k < |c|
        ensures Collected(lines)[k] == StripEnumerator(Strip(lines[QualifyingIndices(lines)[k]]))
      {
        assert Collected(lines)[k] == c[k];
        assert QualifyingIndices(lines)[k] == q[k];
        assert pre[q[k]] == lines[q[k]];
      }
    }
  }

  /** With at least five qualifying lines the list holds exactly five items,
      taken from the first five of those lines, in order. */
  lemma FirstFive(lines: seq<string>)
    requires |QualifyingIndices(lines)| >= MaxSuggestions
    ensures |Take(Collected(lines), MaxSuggestions)| == MaxSuggestions
    ensures forall k :: 0 <= k < MaxSuggestions ==>
              Take(Collected(lines), MaxSuggestions)[k] == StripEnumerator(Strip(lines[QualifyingIndices(lines)[k]]))
  {
    CollectedSpec(lines);
  }

  /** The two ways of taking off an enumerator. */
  lemma EnumeratorCases(line: string)
    ensures '.' in line ==> exists k :: 0 <= k < |line| && line[k] == '.' && '.' !in line[..k]
                                        && StripEnumerator(line) == Strip(line[k + 1..])
    ensures '.' !in line ==> exists k :: 0 <= k <= |line| && (forall i :: 0 <= i < k ==> line[i] == '-')
                                         && (k == |line| || line[k] != '-')
                                         && StripEnumerator(line) == Strip(line[k..])
  {
    if '.' in line {
      var k := IndexOf(line, '.');
      assert line[k] == '.' && '.' !in line[..k];
    } else {
      var k := LeadingChar(line, '-');
      assert StripEnumerator(line) == Strip(line[k..]);
      assert (forall i :: 0 <= i < k ==> line[i] == '-') && (k == |line| || line[k] != '-');
    }
  }
}
