/** The request handlers of app.py that decide something: the validation and
    the metadata and file updates of add_db and delete_db, and the empty-input
    guards of analyze_schema, suggest_queries, generate_sql and
    execute_sql_api. The database directory and
    metadata.json are the fields of a Server object. */
module App {
  import opened Text
  import opened Engine
  import opened Config
  import QueryGenerator
  import SchemaAnalyzer

  const NotFound := "DB not found"
  const KeyAndNameRequired := "DB key와 이름은 필수입니다."
  const KeyCharacters := "DB key는 영문, 숫자, _만 사용 가능합니다."
  const AlreadyExists := "이미 존재하는 DB입니다."
  const QuestionRequired := "질문을 입력해주세요."
  const SqlRequired := "SQL을 입력해주세요."
  const CreatedSuffix := " DB가 생성되었습니다."
  const DeletedSuffix := " deleted"

  /** A JSON reply with its HTTP status. */
  datatype Reply =
    | Message(status: nat, success: bool, message: string)
    | Translated(reasoning: string, sql: string)
    | Executed(result: QueryGenerator.ExecutionResult)
    | Analysis(analysis: string)
    | Suggestions(queries: seq<string>)

  /** data.get(name, default).strip() on the request's JSON object. */
  function Field(request: map<string, string>, name: string, default: string): string {
    Strip(if name in request then request[name] else default)
  }

  // ---------------------------------------------------------------------
  // add_db
  // ---------------------------------------------------------------------

  /** db_key.replace('_', '').isalnum() */
  predicate KeyAllowed(key: string) {
    IsAlnumString(ReplaceAll(key, "_", ""))
  }

  /** A key is allowed exactly when every character is a letter, a digit or
      '_', and at least one is not '_' (so "___" is refused). */
  lemma KeyAllowedSpec(key: string)
    ensures KeyAllowed(key) <==>
            (exists i :: 0 <= i < |key| && key[i] != '_') &&
            (forall i :: 0 <= i < |key| ==> key[i] == '_' || IsAlnum(key[i]))
  {
    var r := ReplaceAll(key, "_", "");
    DeleteCharSpec(key, '_');
    assert forall i :: 0 <= i < |r| ==> r[i] != '_' && r[i] in key;
    assert forall i :: 0 <= i < |key| && key[i] != '_' ==> key[i] in r;
    if KeyAllowed(key) {
      assert r[0] in key;
      forall i | 0 <= i < |key| && key[i] != '_'
        ensures IsAlnum(key[i])
      {
        var j :| 0 <= j < |r| && r[j] == key[i];
      }
    }
    if (exists i :: 0 <= i < |key| && key[i] != '_') &&
       (forall i :: 0 <= i < |key| ==> key[i] == '_' || IsAlnum(key[i])) {
      var i :| 0 <= i < |key| && key[i] != '_';
      assert key[i] in r;
      forall j | 0 <= j < |r|
        ensures IsAlnum(r[j])
      {
        var k :| 0 <= k < |key| && key[k] == r[j];
      }
    }
  }

  /** What add_db decides before touching the file system. */
  datatype AddPlan =
    | Rejected(message: string)
    | Accepted(key: string, meta: Meta)

  /** The checks of add_db, in their order: key and name present, key made of
      allowed characters, no file of that name yet. */
  function PlanAdd(request: map<string, string>, listing: seq<string>): (p: AddPlan)
    ensures var key, name := Field(request, "db_key", ""), Field(request, "db_name", "");
            && (p.Accepted? <==> key != [] && name != [] && KeyAllowed(key) && key + DbSuffix !in listing)
            && (key == [] || name == [] ==> p == Rejected(KeyAndNameRequired))
            && (key != [] && name != [] && !KeyAllowed(key) ==> p == Rejected(KeyCharacters))
            && (key != [] && name != [] && KeyAllowed(key) && key + DbSuffix in listing ==> p == Rejected(AlreadyExists))
            && (p.Accepted? ==> p.key == key && p.meta.name == name
                                && p.meta.description == Field(request, "db_description", "")
                                && p.meta.icon == Field(request, "db_icon", DefaultIcon))
  {
    var key := Field(request, "db_key", "");
    var name := Field(request, "db_name", "");
    if key == [] || name == [] then Rejected(KeyAndNameRequired)
    else if !KeyAllowed(key) then Rejected(KeyCharacters)
    else if key + DbSuffix in listing then Rejected(AlreadyExists)
    else Accepted(key, Meta(name, Field(request, "db_description", ""), Field(request, "db_icon", DefaultIcon)))
  }

  /** An accepted key is a plain file name – no '.' and no '/' – and the
      catalogue derives it back from the file add_db creates. */
  lemma AcceptedKeyIsFileName(request: map<string, string>, listing: seq<string>)
    requires PlanAdd(request, listing).Accepted?
    ensures var key := PlanAdd(request, listing).key;
            '.' !in key && '/' !in key && DeriveKey(key + DbSuffix) == key
  {
    AllowedKeyIsFileName(PlanAdd(request, listing).key);
  }

  lemma AllowedKeyIsFileName(key: string)
    requires KeyAllowed(key)
    ensures '.' !in key && '/' !in key && DeriveKey(key + DbSuffix) == key
  {
    KeyAllowedSpec(key);
    assert forall i :: 0 <= i < |key| ==> key[i] != '.' && key[i] != '/';
    DeriveKeyOfDbFile(key);
  }

  /** The catalogue after a file is appended and its metadata written: the new
      key maps to the new metadata and to the new file. */
  lemma CatalogueAfterAdd(dir: string, listing: seq<string>, metadata: map<string, Meta>, key: string, meta: Meta)
    requires '.' !in key
    ensures var after := Catalogue(dir, listing + [key + DbSuffix], metadata[key := meta]);
            key in after && after[key] == DbEntry(meta.name, meta.description, meta.icon, PathJoin(dir, key + DbSuffix))
  {
    DeriveKeyOfDbFile(key);
    assert (listing + [key + DbSuffix])[..|listing|] == listing;
  }

  /** ... and every other key keeps its entry. */
  lemma CatalogueAfterAddOther(dir: string, listing: seq<string>, metadata: map<string, Meta>, key: string, meta: Meta, other: string)
    requires '.' !in key && other != key
    ensures var before, after := Catalogue(dir, listing, metadata), Catalogue(dir, listing + [key + DbSuffix], metadata[key := meta]);
            (other in after <==> other in before) && (other in before ==> after[other] == before[other])
  {
    DeriveKeyOfDbFile(key);
    assert (listing + [key + DbSuffix])[..|listing|] == listing;
    CatalogueOtherMetadata(dir, listing, metadata, key, meta, other);
  }

  /** The whole catalogue after an add: the key maps to the new entry and
      every other key keeps its entry, or stays absent. */
  lemma CatalogueAfterAddAll(dir: string, listing: seq<string>, metadata: map<string, Meta>, key: string, meta: Meta)
    requires '.' !in key
    ensures var before, after := Catalogue(dir, listing, metadata), Catalogue(dir, listing + [key + DbSuffix], metadata[key := meta]);
            && key in after
            && after[key] == DbEntry(meta.name, meta.description, meta.icon, PathJoin(dir, key + DbSuffix))
            && forall k :: k != key ==> (k in after <==> k in before) && (k in before ==> after[k] == before[k])
  {
    CatalogueAfterAdd(dir, listing, metadata, key, meta);
    forall k | k != key
      ensures var before, after := Catalogue(dir, listing, metadata), Catalogue(dir, listing + [key + DbSuffix], metadata[key := meta]);
              (k in after <==> k in before) && (k in before ==> after[k] == before[k])
    {
      CatalogueAfterAddOther(dir, listing, metadata, key, meta, k);
    }
  }

  /** Changing the metadata of one key leaves the entries of the other keys alone. */
  lemma {:induction false} CatalogueOtherMetadata(dir: string, listing: seq<string>, metadata: map<string, Meta>, key: string, meta: Meta, other: string)
    requires other != key
    ensures var before, after := Catalogue(dir, listing, metadata), Catalogue(dir, listing, metadata[key := meta]);
            (other in after <==> other in before) && (other in before ==> after[other] == before[other])
  {
    if listing != [] {
      CatalogueOtherMetadata(dir, listing[..|listing| - 1], metadata, key, meta, other);
    }
  }

  // ---------------------------------------------------------------------
  // delete_db
  // ---------------------------------------------------------------------

  /** The position of the file whose entry the catalogue holds for key: the
      last .db file of the listing that derives it. */
  function LastDbIndex(listing: seq<string>, key: string): (r: Option<nat>)
    ensures r.Some? ==> r.value < |listing| && EndsWith(listing[r.value], DbSuffix) && DeriveKey(listing[r.value]) == key
    ensures r.Some? ==> forall j :: r.value < j < |listing| && EndsWith(listing[j], DbSuffix) ==> DeriveKey(listing[j]) != key
    ensures r.None? ==> forall j :: 0 <= j < |listing| && EndsWith(listing[j], DbSuffix) ==> DeriveKey(listing[j]) != key
  {
    LastDbIndexBelow(listing, key, |listing|)
  }

  /** The last .db file deriving key among the first n entries of the listing. */
  function LastDbIndexBelow(listing: seq<string>, key: string, n: nat): (r: Option<nat>)
    requires n <= |listing|
    ensures r.Some? ==> r.value < n && EndsWith(listing[r.value], DbSuffix) && DeriveKey(listing[r.value]) == key
    ensures r.Some? ==> forall j :: r.value < j < n && EndsWith(listing[j], DbSuffix) ==> DeriveKey(listing[j]) != key
    ensures r.None? ==> forall j :: 0 <= j < n && EndsWith(listing[j], DbSuffix) ==> DeriveKey(listing[j]) != key
  {
    if n == 0 then None
    else if EndsWith(listing[n - 1], DbSuffix) && DeriveKey(listing[n - 1]) == key then Some(n - 1)
    else LastDbIndexBelow(listing, key, n - 1)
  }

  /** The catalogue holds key exactly when some .db file derives it, and its
      file is the directory joined with the last such file name. */
  lemma CatalogueFile(dir: string, listing: seq<string>, metadata: map<string, Meta>, key: string)
    ensures key in Catalogue(dir, listing, metadata) <==> LastDbIndex(listing, key).Some?
    ensures key in Catalogue(dir, listing, metadata) ==>
              Catalogue(dir, listing, metadata)[key].file == PathJoin(dir, listing[LastDbIndex(listing, key).value])
  {
    CatalogueKeys(dir, listing, metadata, key);
    var r := LastDbIndex(listing, key);
    if r.Some? {
      CatalogueEntry(dir, listing, metadata, r.value);
    }
  }

  /** metadata.json after delete_db: the entry of name is gone when there is one,
      and the file is left as it was when there is no file. */
  function MetadataAfterDelete(metadata: Option<map<string, Meta>>, name: string): (r: Option<map<string, Meta>>)
    ensures r.Some? <==> metadata.Some?
    ensures r.Some? ==> name !in r.value
    ensures r.Some? ==> forall k :: k != name ==> (k in r.value <==> k in metadata.value)
                                                  && (k in r.value ==> r.value[k] == metadata.value[k])
  {
    if metadata.Some? then Some(metadata.value - {name}) else None
  }

  // ---------------------------------------------------------------------
  // The guards of generate_sql and execute_sql_api
  // ---------------------------------------------------------------------

  /** generate_sql(db_name): unknown database, then blank question, are refused
      before the model is asked; otherwise the translation is returned. */
  function GenerateSqlReply(databases: map<string, DbEntry>, dbName: string, request: map<string, string>,
                            catalogOf: string -> seq<CatalogTable>, ask: string -> string): (r: Reply)
    ensures dbName !in databases ==> r == Message(404, false, NotFound)
    ensures dbName in databases && AllSpace(if "question" in request then request["question"] else "") ==>
              r == Message(400, false, QuestionRequired)
    ensures dbName in databases && !AllSpace(if "question" in request then request["question"] else "") ==>
              var t := QueryGenerator.GenerateSqlFromQuestion(catalogOf(databases[dbName].file), Field(request, "question", ""), ask);
              r == Translated(t.reasoning, t.sql)
  {
    StripSpec(if "question" in request then request["question"] else "");
    if dbName !in databases then Message(404, false, NotFound)
    else
      var question := Field(request, "question", "");
      if question == [] then Message(400, false, QuestionRequired)
      else
        var t := QueryGenerator.GenerateSqlFromQuestion(catalogOf(databases[dbName].file), question, ask);
        Translated(t.reasoning, t.sql)
  }

  /** execute_sql_api(db_name): unknown database, then blank SQL, are refused
      before the engine runs; otherwise the shaped execution result is returned. */
  function ExecuteSqlReply(databases: map<string, DbEntry>, dbName: string, request: map<string, string>,
                           engine: (string, string) -> Outcome): (r: Reply)
    ensures dbName !in databases ==> r == Message(404, false, NotFound)
    ensures dbName in databases && AllSpace(if "sql" in request then request["sql"] else "") ==>
              r == Message(400, false, SqlRequired)
    ensures dbName in databases && !AllSpace(if "sql" in request then request["sql"] else "") ==>
              r == Executed(QueryGenerator.ExecuteSql(engine, databases[dbName].file, Field(request, "sql", "")))
  {
    StripSpec(if "sql" in request then request["sql"] else "");
    if dbName !in databases then Message(404, false, NotFound)
    else
      var sql := Field(request, "sql", "");
      if sql == [] then Message(400, false, SqlRequired)
      else Executed(QueryGenerator.ExecuteSql(engine, databases[dbName].file, sql))
  }

  /** analyze_schema(db_name): an unknown database is refused before its
      schema is read; otherwise the reply carries the model's answer to the
      analysis prompt of that database's schema text. */
  method AnalyzeSchemaReply(databases: map<string, DbEntry>, dbName: string,
                            catalogOf: string -> seq<CatalogTable>, ask: string -> string)
    returns (r: Reply)
    ensures dbName !in databases ==> r == Message(404, false, NotFound)
    ensures dbName in databases ==>
              r == Analysis(ask(SchemaAnalyzer.AnalysisPrompt(SchemaAnalyzer.SchemaText(catalogOf(databases[dbName].file)))))
  {
    if dbName !in databases {
      r := Message(404, false, NotFound);
    } else {
      var analysis := SchemaAnalyzer.AnalyzeSchemaWithLlm(catalogOf(databases[dbName].file), ask);
      r := Analysis(analysis);
    }
  }

  /** suggest_queries(db_name): an unknown database is refused before its
      schema is read; otherwise the reply carries at most five questions,
      the suggestion list of the model's answer to the suggestion prompt. */
  method SuggestQueriesReply(databases: map<string, DbEntry>, dbName: string,
                             catalogOf: string -> seq<CatalogTable>, ask: string -> string)
    returns (r: Reply)
    ensures dbName !in databases ==> r == Message(404, false, NotFound)
    ensures dbName in databases ==>
              r.Suggestions? && |r.queries| <= SchemaAnalyzer.MaxSuggestions &&
              r.queries == SchemaAnalyzer.SuggestionList(
                             ask(SchemaAnalyzer.SuggestionPrompt(SchemaAnalyzer.SchemaText(catalogOf(databases[dbName].file)))))
  {
    if dbName !in databases {
      r := Message(404, false, NotFound);
    } else {
      var queries := SchemaAnalyzer.SuggestQueriesWithLlm(catalogOf(databases[dbName].file), ask);
      r := Suggestions(queries);
    }
  }

  /** A refused question never reaches the model: the reply is the same
      whatever the model would answer. */
  lemma BlankQuestionIgnoresModel(databases: map<string, DbEntry>, dbName: string, request: map<string, string>,
                                  catalogOf: string -> seq<CatalogTable>, ask1: string -> string, ask2: string -> string)
    requires dbName !in databases || Field(request, "question", "") == []
    ensures GenerateSqlReply(databases, dbName, request, catalogOf, ask1) == GenerateSqlReply(databases, dbName, request, catalogOf, ask2)
  {
    StripSpec(if "question" in request then request["question"] else "");
  }

  /** Refused SQL never reaches the engine. */
  lemma BlankSqlIgnoresEngine(databases: map<string, DbEntry>, dbName: string, request: map<string, string>,
                              engine1: (string, string) -> Outcome, engine2: (string, string) -> Outcome)
    requires dbName !in databases || Field(request, "sql", "") == []
    ensures ExecuteSqlReply(databases, dbName, request, engine1) == ExecuteSqlReply(databases, dbName, request, engine2)
  {
    StripSpec(if "sql" in request then request["sql"] else "");
  }

  // ---------------------------------------------------------------------
  // The server's file-system state
  // ---------------------------------------------------------------------

  /** The database directory (its file names, in listing order) and metadata.json
      (None while the file does not exist). */
  class Server {
    const dir: string
    var listing: seq<string>
    var metadata: Option<map<string, Meta>>

    constructor (dir: string, listing: seq<string>, metadata: Option<map<string, Meta>>)
      ensures this.dir == dir && this.listing == listing && this.metadata == metadata
    {
      this.dir := dir;
      this.listing := listing;
      this.metadata := metadata;
    }

    /** load_databases() on the current state. */
    function Databases(): map<string, DbEntry>
      reads this
    {
      Catalogue(dir, listing, MetadataOrEmpty(metadata))
    }

    /** add_db: a refused request changes nothing; an accepted one creates the
        file, writes the metadata entry, and the catalogue then lists the key
        with that metadata and file while every other key keeps its entry. */
    method AddDb(request: map<string, string>) returns (reply: Reply)
      modifies this
      ensures var plan := PlanAdd(request, old(listing));
              plan.Rejected? ==> reply == Message(400, false, plan.message)
                                 && listing == old(listing) && metadata == old(metadata)
      ensures var plan := PlanAdd(request, old(listing));
              plan.Accepted? ==>
                && reply == Message(200, true, plan.meta.name + CreatedSuffix)
                && listing == old(listing) + [plan.key + DbSuffix]
                && metadata == Some(MetadataOrEmpty(old(metadata))[plan.key := plan.meta])
                && plan.key in Databases()
                && Databases()[plan.key] == DbEntry(plan.meta.name, plan.meta.description, plan.meta.icon,
                                                    PathJoin(dir, plan.key + DbSuffix))
                && forall k :: k != plan.key ==>
                     (k in Databases() <==> k in old(Databases())) && (k in Databases() ==> Databases()[k] == old(Databases())[k])
    {
      var plan := PlanAdd(request, listing);
      if plan.Rejected? {
        reply := Message(400, false, plan.message);
        return;
      }
      AcceptedKeyIsFileName(request, listing);
      var current := if metadata.Some? then metadata.value else map[];
      assert Databases() == Catalogue(dir, listing, current);
      CatalogueAfterAddAll(dir, listing, current, plan.key, plan.meta);
      listing := listing + [plan.key + DbSuffix];
      metadata := Some(current[plan.key := plan.meta]);
      assert Databases() == Catalogue(dir, listing, current[plan.key := plan.meta]);
      reply := Message(200, true, plan.meta.name + CreatedSuffix);
    }

    /** delete_db: an unknown name changes nothing; otherwise the file the
        catalogue lists for the name, the last .db file deriving it, is
        removed from the directory and the
        name's metadata entry is dropped, every other entry kept. */
    method DeleteDb(dbName: string) returns (reply: Reply)
      modifies this
      ensures dbName !in old(Databases()) ==>
                reply == Message(404, false, NotFound) && listing == old(listing) && metadata == old(metadata)
      ensures dbName in old(Databases()) ==>
                && reply == Message(200, true, dbName + DeletedSuffix)
                && metadata == MetadataAfterDelete(old(metadata), dbName)
                && LastDbIndex(old(listing), dbName).Some?
                && var i := LastDbIndex(old(listing), dbName).value;
                   PathJoin(dir, old(listing)[i]) == old(Databases())[dbName].file
                   && listing == old(listing)[..i] + old(listing)[i + 1..]
    {
      var databases := Databases();
      if dbName !in databases {
        reply := Message(404, false, NotFound);
        return;
      }
      CatalogueFile(dir, listing, MetadataOrEmpty(metadata), dbName);
      var i := LastDbIndex(listing, dbName).value;
      listing := listing[..i] + listing[i + 1..];
      metadata := MetadataAfterDelete(metadata, dbName);
      reply := Message(200, true, dbName + DeletedSuffix);
    }
  }
}
