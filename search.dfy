/** The exact-match query of handleSearch:
    `SELECT word, pos, definition FROM "words" WHERE lower(word) = $w`
    with `$w` bound to `query.toLowerCase()`, stepped row by row. */
module Search {
  import opened JsBuiltins
  import opened Seqs

  /** One row of the `words` table, as `getAsObject()` returns it. */
  datatype Row = Row(word: string, pos: string, definition: string)

  /** The in-memory database: the `words` table in storage order. */
  datatype Db = Db(words: seq<Row>)

  /** The value bound to `$w`: the query lower-cased, NOT trimmed. It is as
      long as the query and already in lower-case form. */
  function BindKey(query: string): (r: string)
    ensures |r| == |query|
    ensures Lower(r) == r
  {
    LowerIdempotent(query);
    Lower(query)
  }

  /** The rows the statement selects, in storage order. */
  function Matching(table: seq<Row>, key: string): (rows: seq<Row>)
    ensures |rows| <= |table|
  {
    Filter(table, (r: Row) => Lower(r.word) == key)
  }

  /** A row is selected exactly when it is stored and its lower-cased word is
      the key; the selected rows keep their storage order, and every matching
      position of the table is selected. */
  lemma MatchingIsExactMatch(table: seq<Row>, key: string) returns (idx: seq<int>)
    ensures forall r :: r in Matching(table, key) <==> r in table && Lower(r.word) == key
    ensures SubsequenceAt(Matching(table, key), table, idx)
    ensures forall k :: 0 <= k < |table| && Lower(table[k].word) == key ==> k in idx
  {
    FilterMembers(table, (r: Row) => Lower(r.word) == key);
    idx := FilterIsSubsequence(table, (r: Row) => Lower(r.word) == key);
  }

  /** Queries that differ only in letter case select the same rows. */
  lemma CaseInsensitiveQuery(table: seq<Row>, q1: string, q2: string)
    requires |q1| == |q2|
    requires forall i :: 0 <= i < |q1| ==> LowerChar(q1[i]) == LowerChar(q2[i])
    ensures Matching(table, BindKey(q1)) == Matching(table, BindKey(q2))
  {
    LowerIgnoresAsciiCase(q1, q2);
  }

  /** Because the key is not trimmed, a query with leading whitespace selects
      nothing from a table whose words do not start with whitespace. */
  lemma PaddedQueryMatchesNothing(table: seq<Row>, query: string)
    requires query != [] && IsJsWhitespace(query[0])
    requires forall i :: 0 <= i < |table| ==> table[i].word == [] || !IsJsWhitespace(table[i].word[0])
    ensures Matching(table, BindKey(query)) == []
  {
    var key := BindKey(query);
    assert key[0] == query[0];
    forall i | 0 <= i < |table| ensures Lower(table[i].word) != key {
      var w := table[i].word;
      if w != [] {
        assert Lower(w)[0] == LowerChar(w[0]);
      }
    }
    FilterNonePass(table, (r: Row) => Lower(r.word) == key);
  }

  /** `while (stmt.step()) rows.push(stmt.getAsObject())`: the cursor walks
      the table in storage order and yields each row whose word matches. */
  method Execute(db: Db, key: string) returns (rows: seq<Row>)
    ensures rows == Matching(db.words, key)
  {
    rows := [];
    var cursor := 0;
    while cursor < |db.words|
      invariant 0 <= cursor <= |db.words|
      invariant rows == Matching(db.words[..cursor], key)
    {
      var row := db.words[cursor];
      assert db.words[..cursor + 1][..cursor] == db.words[..cursor];
      if Lower(row.word) == key {
        rows := rows + [row];
      }
      cursor := cursor + 1;
    }
    assert db.words[..cursor] == db.words;
  }
}
