# Spreadsheet ID lookup: the search core

This project models the lookup half of a small Express server. An operator
uploads an `.xlsx` workbook, which is stored at the fixed path
`data/data.xlsx`. Clients then call `GET /search?id=...` to fetch every row
of the first sheet whose identifier cell matches the query.

The model covers two pieces of `server.js`:

- `findIdKey` picks the identifier column from the header names of the first
  row. It tries three rules in order:
  1. the header whose lower-cased name equals a synonym (`id`, `idno`,
     `id_number`, `identifier`, `studentid`, `empid`, `employeeid`, `code`).
     Synonyms are tried in list order, and the leftmost header wins among
     equal names.
  2. the leftmost header whose lower-cased name contains `id`.
  3. the first header.
- the `/search` route decides the response step by step:
  1. A query that trims to the empty string is rejected with 400.
  2. A missing file is answered with 400.
  3. A file that cannot be parsed is answered with 500.
  4. A sheet with no rows gets a 200 with no results.
  5. Otherwise the route keeps the rows whose identifier value is non-null
     and, once stringified, trimmed and lower-cased, equals the trimmed,
     lower-cased query. The kept rows stay in sheet order.

Files:

- `wrappers.dfy`: the `Option` type.
- `js_strings.dfy`: the JavaScript string primitives the filter relies on:
  - `trim` over the ECMAScript whitespace set;
  - ASCII `toLowerCase`;
  - `includes`;
  - `String(n)` for integers.
- `rows.dfy`: row objects as ordered property lists, with `Object.keys` and
  property lookup.
- `id_key.dfy`: `findIdKey`. It is a method with the source's two loops and
  early returns, proved equal to the specification function `IdKeyOf`. The
  three rules are stated as lemmas about that function.
- `search.dfy`: the route as a function from the raw query parameter and the
  state of the stored file to the response. Lemmas cover the filter and
  normalisation.

The stored file is an input with three cases: absent, unreadable, or parsed
into rows. The rows `readDataRows` would produce are given directly.

A query made only of whitespace counts as missing, because the route trims
it before testing for emptiness (server.js:65-66).

## Model

| member | source | states |
|---|---|---|
| IdKey.FindIdKey | server.js:46-61 | The method with the source's synonym loop, substring loop and default returns exactly the key `IdKeyOf` gives for the row's `Object.keys`. |
| IdKey.IdKeyOf | server.js:46-61 | The chosen key is one of the header names, and it is `undefined` (`None`) exactly when the row has no properties. |
| IdKey.Lowered | server.js:48 | Lower-casing the header list keeps its length, and each position is the lower-cased header at that position. |
| IdKey.IndexOf | server.js:52 | `indexOf` returns the leftmost position holding the value, and -1 (`None`) exactly when the value is absent. |
| IdKey.SynonymIndex | server.js:51-54 | The synonym loop, when it returns, returns the position of a header whose lower-cased name is one of the synonyms. |
| IdKey.SynonymIndexNone | server.js:50-54 | The synonym loop falls through exactly when no lower-cased header equals any synonym. |
| IdKey.SynonymIndexPicksEarliest | server.js:50-54 | The synonym loop returns the position of the leftmost header equal to the earliest synonym that matches some header. |
| IdKey.SynonymWins | server.js:46-54 | Suppose header `i` lower-cases to synonym `c`, no header equals an earlier synonym, and no header to the left of `i` equals synonym `c`. Then `findIdKey` returns header `i`, whatever its column position. |
| IdKey.FirstContainingId | server.js:55-58 | The substring loop returns the leftmost lower-cased header containing "id". It falls through exactly when no header contains "id". |
| IdKey.SubstringFallback | server.js:46-58 | When no header is a synonym, the key is the leftmost header whose lower-cased name contains "id". |
| IdKey.DefaultFirstHeader | server.js:46-60 | When no header is a synonym or contains "id", the key is the first header. |
| IdKey.IdKeyIsHeader | server.js:47-60 | The key is always the name of one of the sample row's own properties. It is `undefined` only for a row with no properties. |
| IdKey.ExampleStudentId | server.js:50-53 | For headers `Name, StudentID, Code` the key is `StudentID`, because `studentid` precedes `code` in the synonym list. |
| IdKey.ExampleInternalId | server.js:55-58 | For headers `Name, InternalId` the key is `InternalId`, chosen by the substring rule. |
| Rows.KeysOf | server.js:47 | `Object.keys` lists the row's property names in order, one per property. |
| Rows.Stringify | server.js:84 | `String(val)` of a string is the string itself, and of a number its decimal text. For a number or a boolean, trimming and lower-casing leave the text unchanged. |
| Rows.Lookup | server.js:82 | `r[key]` is `undefined` exactly when the row has no property `key`. Otherwise it is the value of a property named `key`. |
| JsStrings.IsJsSpace | server.js:65 | The whitespace `trim` removes includes space, tab, line feed and carriage return, and never a letter, a digit or a minus sign. |
| JsStrings.SkipSpaces | server.js:65 | Scanning forward stops at the first non-whitespace character and skips only whitespace. |
| JsStrings.SkipSpacesBack | server.js:65 | Scanning backward stops after the last non-whitespace character and skips only whitespace. |
| JsStrings.Trim | server.js:65 | `trim` returns a slice of the input that neither starts nor ends with whitespace and has only whitespace around it. |
| JsStrings.TrimUnique | server.js:65 | Any slice with that property is the result of `trim`, so the contract determines `trim`. |
| JsStrings.TrimIdempotent | server.js:65 | Trimming twice is trimming once. |
| JsStrings.TrimPadded | server.js:84 | Whitespace added on either side of a string disappears under `trim`. |
| JsStrings.SpacedSlicePadded | server.js:84 | Padding a string with whitespace keeps a whitespace-surrounded slice whitespace-surrounded, at the shifted offset. |
| JsStrings.LowerChar | server.js:84 | Upper-case ASCII letters map to their lower-case letters; every other character is unchanged. |
| JsStrings.ToLower | server.js:84 | `toLowerCase` keeps the length and lower-cases each character in place. |
| JsStrings.ToLowerIdempotent | server.js:84 | A lower-cased string contains no upper-case letter, and lower-casing it again changes nothing. |
| JsStrings.LowerCharSpace | server.js:84 | Lower-casing never turns a whitespace character into a non-whitespace one, or the reverse. |
| JsStrings.ToLowerKeepsSpaces | server.js:84 | Lower-casing keeps whether each position holds whitespace. |
| JsStrings.ToLowerSlice | server.js:84 | Lower-casing a slice equals slicing the lower-cased string. |
| JsStrings.TrimToLowerCommute | server.js:84 | Trimming and lower-casing commute. |
| JsStrings.Contains | server.js:57 | `includes` holds exactly when the substring occurs at some offset. |
| JsStrings.DigitChar | server.js:84 | A digit value maps to the decimal digit character of that value. |
| JsStrings.NatToDecimal | server.js:84 | `String(n)` for a non-negative integer is a non-empty run of digits with no leading zero. |
| JsStrings.IntToDecimal | server.js:84 | `String(n)` for a negative integer is a minus sign followed by the digits of its magnitude. |
| JsStrings.DecimalRoundTrip | server.js:84 | Reading the digits of `String(n)` back gives `n`, so distinct numbers have distinct texts. |
| JsStrings.PlainTextIsNormal | server.js:84 | A string of lower-case letters, digits and minus signs is unchanged by `trim` and by `toLowerCase`. |
| JsStrings.DecimalIsNormal | server.js:84 | The text of an integer is unchanged by `trim` and by `toLowerCase`. |
| SearchRoute.StatusCode | server.js:66-90 | The status is 200 exactly for `ok: true` responses. It is 400 exactly for a missing query or missing file, and 500 exactly for a parse failure. |
| SearchRoute.QueryText | server.js:65 | A given query parameter is its own text. The text is empty exactly when the parameter is absent or empty, so the two cannot be told apart. |
| SearchRoute.PropertyName | server.js:82 | `r[idKey]` reads the property named by the key. For an `undefined` key it reads the property named "undefined". |
| SearchRoute.CellMatches | server.js:82-84 | A `null` or `undefined` value never matches. Any other value matches exactly when its text, lower-cased and trimmed, equals the lower-cased query. |
| SearchRoute.RowMatches | server.js:81-84 | A matching row has a property named by the identifier key, and that property's value matches the query. |
| SearchRoute.FilterCount | server.js:81-85 | `filter` keeps every copy of an accepted element and no copy of a rejected one. |
| SearchRoute.FilterCounts | server.js:81-85 | Every element at once: it occurs in the `filter` result as often as in the input if accepted, and not at all otherwise. |
| SearchRoute.Filter | server.js:81-85 | `filter` returns no more elements than it was given. Everything it returns is an input element the predicate accepts, and every accepted input element is returned. |
| SearchRoute.Search | server.js:64-91 | The route gives one of five answers. Missing query exactly when the trimmed query is empty. File not found exactly when the query is non-empty and the file is absent. Parse failure exactly when the query is non-empty and the file is unreadable. Empty success exactly when the query is non-empty and the sheet has no rows. Otherwise `idKey` is `findIdKey` of the first row, and a row is in `results` exactly when it is a sheet row whose identifier value matches the normalised query. Each matching row is returned as many times as the sheet holds it, and a non-matching row never. |
| SearchRoute.FilterIsSubsequence | server.js:81-85 | `filter` keeps the selected elements in their original order. |
| SearchRoute.FilterAppend | server.js:81-85 | Filtering a concatenation concatenates the filtered parts. |
| SearchRoute.FilterSingle | server.js:81-85 | Filtering one element keeps it exactly when the predicate accepts it. |
| SearchRoute.FilterRejectsAll | server.js:81-85 | When the predicate rejects every element, `filter` returns the empty list. |
| SearchRoute.FilterCongruence | server.js:81-85 | Two predicates that agree on every element give the same `filter` result. |
| SearchRoute.SearchResultsInOrder | server.js:81-87 | The rows in `results` appear in the order the sheet lists them. |
| SearchRoute.SearchNormalizesQuery | server.js:65-84 | Two queries that agree after trimming and lower-casing get identical responses. |
| SearchRoute.SearchIgnoresPadding | server.js:65 | Whitespace around the query never changes the response. |
| SearchRoute.TextCellIgnoresPadding | server.js:84 | Whitespace around a stored text identifier never changes whether it matches. |
| SearchRoute.TextCellIgnoresCase | server.js:84 | Two stored texts with the same lower-cased form match exactly the same queries. |
| SearchRoute.NumericCellMatch | server.js:84 | A numeric identifier matches exactly the queries that lower-case to its decimal text. |
| SearchRoute.NullIdentifierNeverReturned | server.js:82-83 | A row whose identifier property is `null` or missing is never returned. |
| SearchRoute.NoMatchIsEmptySuccess | server.js:81-87 | When no row matches, the answer is a success with an empty result list, not an error. |
| SearchRoute.IdKeyInFirstRow | server.js:78 | When the response names an identifier key, the first row has a property of that name. |
| SearchRoute.ExamplePaddedQuery | server.js:65 | The query `" 123 "` gets the same response as `"123"`. |

## Left out

- Express wiring: routing, CORS, static files from `public/`, `/ping` and `listen` are not modelled. They carry no logic of the lookup.
- The `/upload` route and the multer storage are not modelled. Upload overwrite and re-upload idempotence depend on them, so they are not stated either. The search sees the stored file only through the `StoredFile` input.
- The `fs.existsSync` test and the xlsx parsing in `readDataRows` are taken as given. They are reduced to the three cases of `StoredFile`: absent, unreadable, or the parsed rows. The model says nothing about how cells become values, or about headers that `sheet_to_json` renames.
- `Object.keys` order: the model takes the order of a row's properties as given. JavaScript lists integer-like property names first in ascending order, so for a header such as `2024` the position the model uses may differ from the column order.
- Inherited object properties: `r[idKey]` could reach a prototype property such as `constructor` for a row that lacks its own property of that name. The model's lookup sees only own properties, and a `__proto__` header is not modelled.
- JsStrings.ToLower: models `toLowerCase` on ASCII letters only. Characters outside A-Z are left as they are, although JavaScript also lower-cases other Unicode letters.
- JsStrings.IntToDecimal: covers `String(n)` for integers only. Fractional numbers, exponent notation (magnitudes of 1e21 and above) and the precision limit of doubles beyond 2^53 are not modelled. Cells are modelled as `null`, string, integer or boolean, and dates are not modelled.
- SearchRoute.Search: a query parameter given as an array or an object is not modelled. `toString` would join or describe it. The query is absent or a single string.
- Error text: the message strings, `console.error` and the error message in the 500 body are not modelled. Only which response is sent is modelled.
- Concurrency: a search that races an upload rewriting the same file is not modelled. Each search sees one state of the stored file.
- The browser UI in `public/` is not part of this model.
