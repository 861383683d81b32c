/**
 * The `GET /search?id=...` route: validate the query, consult the stored
 * spreadsheet, pick the identifier column from the first row and keep, in
 * order, the rows whose identifier cell equals the query up to surrounding
 * whitespace and letter case.
 */
module SearchRoute {
  import opened Wrappers
  import opened JsStrings
  import opened Rows
  import opened IdKey

  /** The fixed upload location as the route finds it: no file, a file the parser rejects, or its rows. */
  datatype StoredFile = Absent | Unreadable | Parsed(rows: seq<Row>)

  /** The route's JSON answers. */
  datatype Response =
    | MissingQuery                                  // 400, ok: false
    | FileNotFound                                  // 400, ok: false
    | ParseFailure                                  // 500, ok: false
    | OkEmpty                                       // 200, ok: true, results: [], no idKey
    | Ok(idKey: Option<string>, results: seq<Row>)  // 200, ok: true
  {
    /** The `ok` flag of the JSON body. */
    predicate IsOk()
    {
      OkEmpty? || Ok?
    }
  }

  /** The HTTP status the route sends with a response. */
  function StatusCode(r: Response): (code: int)
    ensures code == 200 <==> r.IsOk()
    ensures code == 400 <==> r.MissingQuery? || r.FileNotFound?
    ensures code == 500 <==> r.ParseFailure?
  {
    match r
    case MissingQuery => 400
    case FileNotFound => 400
    case ParseFailure => 500
    case OkEmpty => 200
    case Ok(_, _) => 200
  }

  /**
   * `(req.query.id || '').toString()`: a given parameter is its own text, and
   * an absent one reads as the empty string, indistinguishable from `id=`.
   */
  function QueryText(query: Option<string>): (q: string)
    ensures query.Some? ==> q == query.value
    ensures q == [] <==> query.None? || query == Some([])
  {
    match query
    case None => ""
    case Some(q) => q
  }

  /**
   * The property `r[idKey]` reads: a defined key names itself, and JavaScript
   * converts an `undefined` key to the property name "undefined".
   */
  function PropertyName(idKey: Option<string>): (name: string)
    ensures idKey.Some? ==> name == idKey.value
    ensures idKey.None? ==> name == "undefined"
  {
    match idKey
    case Some(k) => k
    case None => "undefined"
  }

  /**
   * The filter's test on one identifier value `v` against the trimmed query `id`:
   * `null` and `undefined` never match; otherwise the stringified, trimmed,
   * lower-cased value must equal the lower-cased query.
   */
  predicate CellMatches(v: Option<Cell>, id: string): (b: bool)
    ensures b ==> v.Some? && !v.value.Null?
    ensures v.Some? && !v.value.Null? ==> (b <==> Trim(ToLower(Stringify(v.value))) == ToLower(id))
  {
    if v.Some? && !v.value.Null? then
      TrimToLowerCommute(Stringify(v.value));
      ToLower(Trim(Stringify(v.value))) == ToLower(id)
    else false
  }

  /** The filter's test on a whole row: the row has a property `key` whose value matches. */
  predicate RowMatches(row: Row, key: string, id: string): (b: bool)
    ensures b ==> exists i :: 0 <= i < |row| && row[i].0 == key && CellMatches(Some(row[i].1), id)
    ensures b ==> key in KeysOf(row)
  {
    CellMatches(Lookup(row, key), id)
  }

  /** `xs.filter(keep)`: the elements `keep` accepts, in their original order. */
  function Filter<T>(xs: seq<T>, keep: T -> bool): (r: seq<T>)
    ensures |r| <= |xs|
    ensures forall i :: 0 <= i < |r| ==> r[i] in xs && keep(r[i])
    ensures forall i :: 0 <= i < |xs| && keep(xs[i]) ==> xs[i] in r
  {
    if xs == [] then []
    else
      var rest := Filter(xs[1..], keep);
      assert forall i :: 1 <= i < |xs| ==> xs[i] == xs[1..][i - 1];
      if keep(xs[0]) then [xs[0]] + rest else rest
  }

  /** `filter` keeps every copy of an accepted element and no copy of a rejected one. */
  lemma {:induction false} FilterCount<T>(xs: seq<T>, keep: T -> bool, x: T)
    ensures multiset(Filter(xs, keep))[x] == if keep(x) then multiset(xs)[x] else 0
  {
    if xs != [] {
      FilterCount(xs[1..], keep, x);
      assert xs == [xs[0]] + xs[1..];
    }
  }

  /** `FilterCount` for every element at once. */
  lemma FilterCounts<T>(xs: seq<T>, keep: T -> bool)
    ensures forall x :: multiset(Filter(xs, keep))[x] == if keep(x) then multiset(xs)[x] else 0
  {
    forall x {
      FilterCount(xs, keep, x);
    }
  }

  /** The whole route, from the raw query parameter and the stored file to the response. */
  function Search(query: Option<string>, file: StoredFile): (r: Response)
    ensures r == MissingQuery <==> Trim(QueryText(query)) == []
    ensures r == FileNotFound <==> Trim(QueryText(query)) != [] && file == Absent
    ensures r == ParseFailure <==> Trim(QueryText(query)) != [] && file == Unreadable
    ensures r == OkEmpty <==> Trim(QueryText(query)) != [] && file == Parsed([])
    ensures r.Ok? ==> file.Parsed? && file.rows != [] && r.idKey == IdKeyOf(KeysOf(file.rows[0]))
    ensures r.Ok? ==> forall x :: x in r.results <==>
      x in file.rows && RowMatches(x, PropertyName(r.idKey), Trim(QueryText(query)))
    ensures r.Ok? ==> forall x :: multiset(r.results)[x] == (if RowMatches(x, PropertyName(r.idKey),
                                 Trim(QueryText(query))) then multiset(file.rows)[x] else 0)
  {
    var id := Trim(QueryText(query));
    if id == [] then MissingQuery
    else match file
      case Absent => FileNotFound
      case Unreadable => ParseFailure
      case Parsed(rows) =>
        if rows == [] then OkEmpty
        else
          var idKey := IdKeyOf(KeysOf(rows[0]));
          var keep := row => RowMatches(row, PropertyName(idKey), id);
          FilterCounts(rows, keep);
          Ok(idKey, Filter(rows, keep))
  }

  /** `xs` occurs in `ys` in the same order, possibly with gaps. */
  ghost predicate IsSubsequence<T>(xs: seq<T>, ys: seq<T>)
    decreases |ys|
  {
    if xs == [] then true
    else if ys == [] then false
    else (xs[0] == ys[0] && IsSubsequence(xs[1..], ys[1..])) || IsSubsequence(xs, ys[1..])
  }

  /** The filter keeps the elements it selects in their original order. */
  lemma {:induction false} FilterIsSubsequence<T>(xs: seq<T>, keep: T -> bool)
    ensures IsSubsequence(Filter(xs, keep), xs)
  {
    if xs != [] {
      FilterIsSubsequence(xs[1..], keep);
    }
  }

  /** The filter is a homomorphism over concatenation: together with a single element's case it determines the result. */
  lemma {:induction false} FilterAppend<T>(a: seq<T>, b: seq<T>, keep: T -> bool)
    ensures Filter(a + b, keep) == Filter(a, keep) + Filter(b, keep)
  {
    if a == [] {
      assert a + b == b;
    } else {
      var ab := a + b;
      assert ab[0] == a[0] && ab[1..] == a[1..] + b;
      FilterAppend(a[1..], b, keep);
    }
  }

  /** A single element is kept exactly when the test accepts it. */
  lemma FilterSingle<T>(x: T, keep: T -> bool)
    ensures Filter([x], keep) == if keep(x) then [x] else []
  {
    assert [x][1..] == [];
  }

  /** A test that accepts nothing selects nothing. */
  lemma {:induction false} FilterRejectsAll<T>(xs: seq<T>, keep: T -> bool)
    requires forall i :: 0 <= i < |xs| ==> !keep(xs[i])
    ensures Filter(xs, keep) == []
  {
    if xs != [] {
      FilterRejectsAll(xs[1..], keep);
    }
  }

  /** Two tests that agree on every element select the same elements. */
  lemma {:induction false} FilterCongruence<T>(xs: seq<T>, keep1: T -> bool, keep2: T -> bool)
    requires forall x :: x in xs ==> keep1(x) == keep2(x)
    ensures Filter(xs, keep1) == Filter(xs, keep2)
  {
    if xs != [] {
      FilterCongruence(xs[1..], keep1, keep2);
    }
  }

  /** The route returns the matching rows in the order the spreadsheet lists them. */
  lemma SearchResultsInOrder(query: Option<string>, file: StoredFile)
    requires Search(query, file).Ok?
    ensures IsSubsequence(Search(query, file).results, file.rows)
  {
    var rows, id := file.rows, Trim(QueryText(query));
    var key := PropertyName(IdKeyOf(KeysOf(rows[0])));
    FilterIsSubsequence(rows, row => RowMatches(row, key, id));
  }

  /**
   * Letter case and surrounding whitespace of the query never change the
   * response: two queries that agree once trimmed and lower-cased get the same answer.
   */
  lemma SearchNormalizesQuery(q1: string, q2: string, file: StoredFile)
    requires ToLower(Trim(q1)) == ToLower(Trim(q2))
    ensures Search(Some(q1), file) == Search(Some(q2), file)
  {
    assert |Trim(q1)| == |Trim(q2)|;
    if file.Parsed? && file.rows != [] && Trim(q1) != [] {
      var key := PropertyName(IdKeyOf(KeysOf(file.rows[0])));
      FilterCongruence(file.rows, row => RowMatches(row, key, Trim(q1)), row => RowMatches(row, key, Trim(q2)));
    }
  }

  /** Whitespace around the query is ignored. */
  lemma SearchIgnoresPadding(pre: string, q: string, post: string, file: StoredFile)
    requires forall k :: 0 <= k < |pre| ==> IsJsSpace(pre[k])
    requires forall k :: 0 <= k < |post| ==> IsJsSpace(post[k])
    ensures Search(Some(pre + q + post), file) == Search(Some(q), file)
  {
    TrimPadded(pre, q, post);
    SearchNormalizesQuery(pre + q + post, q, file);
  }

  /** Whitespace around a stored text identifier is ignored. */
  lemma TextCellIgnoresPadding(pre: string, s: string, post: string, id: string)
    requires forall k :: 0 <= k < |pre| ==> IsJsSpace(pre[k])
    requires forall k :: 0 <= k < |post| ==> IsJsSpace(post[k])
    ensures CellMatches(Some(Text(pre + s + post)), id) == CellMatches(Some(Text(s)), id)
  {
    TrimPadded(pre, s, post);
  }

  /** Letter case in a stored text identifier never changes whether it matches. */
  lemma TextCellIgnoresCase(s1: string, s2: string, id: string)
    requires ToLower(s1) == ToLower(s2)
    ensures CellMatches(Some(Text(s1)), id) == CellMatches(Some(Text(s2)), id)
  {
    TrimToLowerCommute(s1);
    TrimToLowerCommute(s2);
  }

  /** A numeric identifier matches exactly the queries that lower-case to its decimal text. */
  lemma NumericCellMatch(n: int, id: string)
    ensures CellMatches(Some(Num(n)), id) <==> ToLower(id) == IntToDecimal(n)
  {
    DecimalIsNormal(n);
  }

  /**
   * Rows whose identifier property is `null` or missing are never returned,
   * whatever the query.
   */
  lemma NullIdentifierNeverReturned(query: Option<string>, file: StoredFile, row: Row)
    requires Search(query, file).Ok?
    requires Lookup(row, PropertyName(Search(query, file).idKey)) in {None, Some(Null)}
    ensures row !in Search(query, file).results
  {
  }

  /** No row matching is a successful response with no results, not an error. */
  lemma NoMatchIsEmptySuccess(query: Option<string>, rows: seq<Row>)
    requires Trim(QueryText(query)) != [] && rows != []
    requires forall x :: x in rows ==> !RowMatches(x, PropertyName(IdKeyOf(KeysOf(rows[0]))), Trim(QueryText(query)))
    ensures Search(query, Parsed(rows)) == Ok(IdKeyOf(KeysOf(rows[0])), [])
  {
    var key, id := PropertyName(IdKeyOf(KeysOf(rows[0]))), Trim(QueryText(query));
    FilterRejectsAll(rows, row => RowMatches(row, key, id));
  }

  /** The chosen identifier key, when defined, is a property of the first row. */
  lemma IdKeyInFirstRow(query: Option<string>, file: StoredFile)
    requires Search(query, file).Ok? && Search(query, file).idKey.Some?
    ensures Lookup(file.rows[0], Search(query, file).idKey.value).Some?
  {
  }

  /** Query `" 123 "` finds what query `"123"` finds. */
  lemma ExamplePaddedQuery(file: StoredFile)
    ensures Search(Some(" 123 "), file) == Search(Some("123"), file)
  {
    assert " 123 " == " " + "123" + " ";
    SearchIgnoresPadding(" ", "123", " ", file);
  }
}
