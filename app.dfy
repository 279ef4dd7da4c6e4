/** The App component: its state, the dataset load run once on mount, the
    search form handler, and the null case of escapeHtml. */
module App {
  import opened JsBuiltins
  import opened Loader
  import opened Search

  const LoadErrorPrefix := "Error loading database: "
  const FetchErrorPrefix := "Failed to fetch wordnet.db: "
  const SearchErrorPrefix := "Search error: "
  const NoDefinitions := "No definitions found"

  /** What `fetch('wordnetFull.db')` and the body reader deliver: either the
      fetch rejects, or a response whose body yields `body` chunk by chunk;
      `readFailure` is the message of a `reader.read()` that rejects after
      those chunks instead of reporting done. `total` is the parsed
      content-length, 0 when the header is missing or unparseable. */
  datatype Fetched =
    | Rejected(message: string)
    | Response(ok: bool, status: nat, total: int, body: seq<seq<byte>>, readFailure: Option<string>)

  /** What `new SQL.Database(buffer)` does with the assembled bytes. */
  datatype Opened = Opened(db: Db) | Corrupt(message: string)

  /** How loadDatabase ends: the database it opens, or the message of the
      Error caught by its catch block. `initFailure` is the message of a
      rejected `initSqlJs`. */
  function LoadOutcome(initFailure: Option<string>, fetched: Fetched, open: seq<byte> -> Opened): (r: Result<Db>)
    ensures r.Ok? ==> initFailure.None? && fetched.Response? && fetched.ok && fetched.readFailure.None?
  {
    if initFailure.Some? then Err(initFailure.value)
    else match fetched
      case Rejected(m) => Err(m)
      case Response(ok, status, _, body, readFailure) =>
        if !ok then Err(FetchErrorPrefix + NatToString(status))
        else if readFailure.Some? then Err(readFailure.value)
        else match open(Flatten(body))
          case Opened(db) => Ok(db)
          case Corrupt(m) => Err(m)
  }

  /** A database is opened exactly when the engine starts, the response is ok,
      the whole body arrives, and the engine accepts the concatenated chunks;
      it is then the database built from those bytes. */
  lemma LoadSucceedsOnlyOnWholeBody(initFailure: Option<string>, fetched: Fetched, open: seq<byte> -> Opened)
    ensures LoadOutcome(initFailure, fetched, open).Ok? <==>
      && initFailure.None?
      && fetched.Response? && fetched.ok && fetched.readFailure.None?
      && open(Flatten(fetched.body)).Opened?
    ensures LoadOutcome(initFailure, fetched, open).Ok? ==>
      LoadOutcome(initFailure, fetched, open).value == open(Flatten(fetched.body)).db
  {
  }

  /** A non-ok response fails with its status, before any bytes are read. */
  lemma BadStatusFails(fetched: Fetched, open: seq<byte> -> Opened)
    requires fetched.Response? && !fetched.ok
    ensures LoadOutcome(None, fetched, open) == Err(FetchErrorPrefix + NatToString(fetched.status))
    ensures LastProgress(None, fetched) == 0.0
  {
  }

  /** The fetch error names the status: two statuses give the same message
      only when they are the same status. */
  lemma StatusMessageInjective(a: nat, b: nat)
    requires FetchErrorPrefix + NatToString(a) == FetchErrorPrefix + NatToString(b)
    ensures a == b
  {
    var n := |FetchErrorPrefix|;
    assert (FetchErrorPrefix + NatToString(a))[n..] == NatToString(a);
    assert (FetchErrorPrefix + NatToString(b))[n..] == NatToString(b);
  }

  /** The last value passed to `setProgress`: 0 until a chunk arrives. */
  function LastProgress(initFailure: Option<string>, fetched: Fetched): (p: real)
  {
    if initFailure.Some? || fetched.Rejected? || !fetched.ok || fetched.body == [] then 0.0
    else Percent(TotalLength(fetched.body), fetched.total)
  }

  /** With a known size, the progress shown stays within [0, 100]; with an
      unknown size it stays within [0, 90]. */
  lemma LastProgressBounds(initFailure: Option<string>, fetched: Fetched)
    ensures 0.0 <= LastProgress(initFailure, fetched) <= 100.0
    ensures fetched.Response? && fetched.total <= 0 ==> LastProgress(initFailure, fetched) <= 90.0
  {
    if fetched.Response? {
      var loaded := TotalLength(fetched.body);
      if fetched.total > 0 {
        PercentKnownTotal(loaded, fetched.total);
      } else {
        PercentUnknownTotal(loaded, fetched.total);
      }
    }
  }

  /** The `null`/`undefined`/string cases of the value escapeHtml receives. */
  datatype JsText = Null | Undefined | Text(text: string)

  /** escapeHtml: null and undefined render as the empty string; a string
      goes through the entity replacements, given here as `replaceEntities`. */
  function EscapeHtml(value: JsText, replaceEntities: string -> string): (r: string)
    ensures value.Null? || value.Undefined? ==> r == ""
    ensures value.Text? ==> r == replaceEntities(value.text)
  {
    match value
    case Text(s) => replaceEntities(s)
    case _ => ""
  }

  /** The component's state hooks. */
  class App {
    var query: string
    var info: string
    var error: string
    var definitions: seq<Row>
    var wordTitle: string
    var db: Option<Db>
    var isLoading: bool
    var progress: real

    /** The initial values of the `useState` hooks. */
    constructor ()
      ensures query == "" && info == "Loading database..." && error == ""
      ensures definitions == [] && wordTitle == "" && db == None
      ensures isLoading && progress == 0.0
    {
      query := "";
      info := "Loading database...";
      error := "";
      definitions := [];
      wordTitle := "";
      db := None;
      isLoading := true;
      progress := 0.0;
    }

    /** The input's onChange handler. */
    method SetQuery(text: string)
      modifies this
      ensures query == text
      ensures info == old(info) && error == old(error) && definitions == old(definitions)
      ensures wordTitle == old(wordTitle) && db == old(db)
      ensures isLoading == old(isLoading) && progress == old(progress)
    {
      query := text;
    }

    /** loadDatabase: start the engine, fetch, read the body with progress,
        assemble the buffer, open the database; any Error on the way is
        caught and shown with the load-error prefix. */
    method LoadDatabase(initFailure: Option<string>, fetched: Fetched, open: seq<byte> -> Opened)
      modifies this
      ensures !isLoading
      ensures progress == LastProgress(initFailure, fetched)
      ensures LoadOutcome(initFailure, fetched, open).Ok? ==>
        db == Some(LoadOutcome(initFailure, fetched, open).value) &&
        info == "Database loaded." && error == old(error)
      ensures LoadOutcome(initFailure, fetched, open).Err? ==>
        db == old(db) && info == "" &&
        error == LoadErrorPrefix + LoadOutcome(initFailure, fetched, open).message
      ensures query == old(query) && definitions == old(definitions) && wordTitle == old(wordTitle)
    {
      info := "Fetching wordnet.db...";
      isLoading := true;
      progress := 0.0;
      var failure: Option<string> := None;
      if initFailure.Some? {
        failure := initFailure;
      } else if fetched.Rejected? {
        failure := Some(fetched.message);
      } else if !fetched.ok {
        failure := Some(FetchErrorPrefix + NatToString(fetched.status));
      } else {
        var chunks, loaded, trace := ReadChunks(fetched.body, fetched.total);
        if trace != [] {
          progress := trace[|trace| - 1];
          assert fetched.body[..|fetched.body|] == fetched.body;
        }
        if fetched.readFailure.Some? {
          failure := fetched.readFailure;
        } else {
          var buffer, offset := Assemble(chunks, loaded);
          match open(buffer[..])
          case Opened(database) =>
            db := Some(database);
            info := "Database loaded.";
            isLoading := false;
          case Corrupt(m) =>
            failure := Some(m);
        }
      }
      if failure.Some? {
        info := "";
        error := LoadErrorPrefix + failure.value;
        isLoading := false;
      }
    }

    /** handleSearch: nothing happens without a database or with a blank
        query; otherwise the lower-cased (untrimmed) query is matched, and the
        outcome is the rows with the raw query as title, or the search error
        carrying the engine's message (`engineFailure`). */
    method HandleSearch(engineFailure: Option<string>)
      modifies this
      ensures old(db).None? || IsBlank(old(query)) ==>
        && query == old(query) && info == old(info) && error == old(error)
        && definitions == old(definitions) && wordTitle == old(wordTitle)
      ensures db == old(db) && query == old(query)
      ensures isLoading == old(isLoading) && progress == old(progress)
      ensures old(db).Some? && !IsBlank(old(query)) && engineFailure.None? ==>
        && definitions == Matching(db.value.words, BindKey(query))
        && wordTitle == query && error == ""
        && info == (if definitions == [] then NoDefinitions else "")
      ensures old(db).Some? && !IsBlank(old(query)) && engineFailure.Some? ==>
        && error == SearchErrorPrefix + engineFailure.value && info == ""
        && definitions == [] && wordTitle == ""
    {
      if db.None? || IsBlank(query) {
        return;
      }
      error := "";
      definitions := [];
      wordTitle := "";
      info := "Searching...";
      match engineFailure
      case Some(m) =>
        error := SearchErrorPrefix + m;
        info := "";
      case None =>
        var rows := Execute(db.value, BindKey(query));
        definitions := rows;
        wordTitle := query;
        info := "";
        if |rows| == 0 {
          info := NoDefinitions;
        }
    }
  }
}
