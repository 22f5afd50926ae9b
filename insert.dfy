/** The query text and parameters `store_data_in_database` (main.py) builds
    from the extracted-field dictionary before handing them to the database
    driver: the keys as a comma-separated column list, one `%s` placeholder
    per key, and the values in key order. A Python `dict` keeps insertion
    order, so it stands here for the sequence of its entries. */
module InsertQuery {
  import opened Wrappers
  import opened PyText

  /** One `key: value` entry of `data_dict`; a `None` value is sent as SQL NULL. */
  type Entry = (string, Option<string>)

  /** A query with `%s` placeholders and the tuple bound to them. */
  datatype Statement = Statement(sql: string, params: seq<Option<string>>)

  const Separator: string := ", "
  const Placeholder: string := "%s"
  const QueryHead: string := "INSERT INTO email_table ("
  const QueryMiddle: string := ") VALUES ("
  const QueryTail: string := ")"

  /** `data_dict.keys()`, in order. */
  function Keys(entries: seq<Entry>): (ks: seq<string>)
    ensures |ks| == |entries| && forall i :: 0 <= i < |entries| ==> ks[i] == entries[i].0
  {
    seq(|entries|, i requires 0 <= i < |entries| => entries[i].0)
  }

  /** `tuple(data_dict.values())`, in order. */
  function Values(entries: seq<Entry>): (vs: seq<Option<string>>)
    ensures |vs| == |entries| && forall i :: 0 <= i < |entries| ==> vs[i] == entries[i].1
  {
    seq(|entries|, i requires 0 <= i < |entries| => entries[i].1)
  }

  /** `[x] * n`. */
  function Repeat(x: string, n: nat): (r: seq<string>)
    ensures |r| == n && forall i :: 0 <= i < n ==> r[i] == x
  {
    seq(n, i => x)
  }

  /** `fields`: the keys joined by `", "`. */
  function Columns(entries: seq<Entry>): string
  {
    Join(Keys(entries), Separator)
  }

  /** `placeholders`: one `%s` per entry, joined by `", "`. */
  function Placeholders(entries: seq<Entry>): string
  {
    Join(Repeat(Placeholder, |entries|), Separator)
  }

  /** The `insert_query` string and the `values` tuple. */
  function BuildInsert(entries: seq<Entry>): (st: Statement)
    ensures |st.params| == |entries|
    ensures forall i :: 0 <= i < |entries| ==> st.params[i] == entries[i].1
  {
    Statement(QueryHead + Columns(entries) + QueryMiddle + Placeholders(entries) + QueryTail,
              Values(entries))
  }

  /** A column name that can be read back from the query: it holds neither
      the separator's comma nor a closing parenthesis, as the handler's
      lower-case, underscore-separated keys do not. */
  predicate PlainName(k: string)
  {
    ',' !in k && ')' !in k
  }

  /** Reads a query of the shape `BuildInsert` produces back into its
      column names and placeholders; `None` when the text has another shape. */
  function ParseInsert(sql: string): Option<(seq<string>, seq<string>)>
  {
    if !LitAt(sql, 0, QueryHead) then None
    else match Find(sql, QueryMiddle, |QueryHead|)
      case None => None
      case Some(m) =>
        var v := m + |QueryMiddle|;
        if |sql| <= v || sql[|sql| - 1] != ')' then None
        else Some((Split(sql[|QueryHead|..m], Separator), Split(sql[v..|sql| - 1], Separator)))
  }

  /** The column list holds no `)` when no key does. */
  lemma ColumnsAvoidParen(entries: seq<Entry>)
    requires forall i :: 0 <= i < |entries| ==> PlainName(entries[i].0)
    ensures ')' !in Columns(entries)
  {
    JoinAvoids(Keys(entries), Separator, ')');
  }

  /** `find` locates the middle of a query at the end of its column list
      when that list holds no `)`. */
  lemma FindMiddle(cols: string, rest: string)
    requires ')' !in cols
    ensures Find(QueryHead + (cols + QueryMiddle + rest), QueryMiddle, |QueryHead|) == Some(|QueryHead| + |cols|)
  {
    FindAfter(cols, QueryMiddle, rest);
    FindShift(QueryHead, cols + QueryMiddle + rest, QueryMiddle, 0);
  }

  /** A query of the built shape reads back as the split column list and the
      split placeholder list. */
  lemma ParseShape(cols: string, ph: string)
    requires ')' !in cols
    ensures ParseInsert(QueryHead + cols + QueryMiddle + ph + QueryTail)
      == Some((Split(cols, Separator), Split(ph, Separator)))
  {
    var sql := QueryHead + cols + QueryMiddle + ph + QueryTail;
    var h := |QueryHead|;
    var m := h + |cols|;
    assert sql == QueryHead + (cols + QueryMiddle + (ph + QueryTail));
    FindMiddle(cols, ph + QueryTail);
    assert sql[..h] == QueryHead;
    assert sql[h..m] == cols;
    assert sql[m + |QueryMiddle|..|sql| - 1] == ph;
  }

  /** The query reads back as exactly the dictionary's keys, in order, and
      one `%s` per key. */
  lemma ParseBuild(entries: seq<Entry>)
    requires |entries| >= 1
    requires forall i :: 0 <= i < |entries| ==> PlainName(entries[i].0)
    ensures ParseInsert(BuildInsert(entries).sql) == Some((Keys(entries), Repeat(Placeholder, |entries|)))
  {
    ColumnsAvoidParen(entries);
    ParseShape(Columns(entries), Placeholders(entries));
    SplitJoin(Keys(entries), Separator);
    SplitJoin(Repeat(Placeholder, |entries|), Separator);
  }

  /** Column `i` of the query, placeholder `i` and parameter `i` all belong
      to entry `i`: the driver binds each value to its own key's column. */
  lemma ColumnAlignment(entries: seq<Entry>, i: nat)
    requires i < |entries|
    requires forall k :: 0 <= k < |entries| ==> PlainName(entries[k].0)
    ensures var st := BuildInsert(entries);
      && ParseInsert(st.sql).Some?
      && var (cols, phs) := ParseInsert(st.sql).value;
      && |cols| == |phs| == |st.params| == |entries|
      && cols[i] == entries[i].0 && phs[i] == Placeholder && st.params[i] == entries[i].1
  {
    ParseBuild(entries);
  }
}
