# sqlpp in Dafny

A model of `sqlpp`, a thin wrapper around Go's `database/sql` that

- expands every `(?)` marker of a query that is paired with a list argument
  into one `?` per element (`(?,?,?)`; an empty list keeps `(?)`),
  flattening the list into the
  argument list, and, for PostgreSQL, renumbers every `?` as `$1, $2, ...`
  (`DB.transform`);
- caches prepared statements by the transformed query, and remembers the
  MySQL error 1295 ("this command is not supported in the prepared statement
  protocol yet") as a sticky entry so that such a query is not prepared
  again (`DB.prepare`, `DB.Close`);
- runs Exec/QueryRow/Query through the cached statement, falling back to a
  direct run on the database only for the 1295 error (`ExecContext`,
  `QueryRowContext`, `QueryContext`);
- accumulates query rows with a caller-supplied scanner (`DB.parse`);
- classifies errors as the 1295 kind by their message prefix `Error 1295:`
  (`isMysqlPrepareNotSupported`).

Modules, in dependency order:

- `Base` (base.dfy): `Option`, `Result`, Go slices as `Slice<T> = Nil | Slice(elems)`
  (so that a nil argument list and an empty one are different values) and
  Go errors known by their message.
- `GoStrings` (gostrings.dfy): the Go `strings`/`strconv` functions the
  transform calls (`LastIndex` of `(?)`, `Count`, `Replace` of the first
  `?`, `Repeat`, `Itoa`), and `HasPrefix`, which the MySQL classifier calls.
- `MySql` (mysql.dfy): the prefix constant and the classifier.
- `Transform` (transform.dfy): the transform as specification functions
  (`Expand`, `Number`, `TransformSpec`) and as the Go code's three loops
  (method `Transform` and its loop methods), proved equal.
- `Markers` (markers.dfy): a left-to-right reference definition
  (`ReplaceMarkers`: replace the k-th marker by the k-th list's group) and
  the theorems tying the Go code's right-to-left index arithmetic to it,
  for as many, fewer and more lists than markers, plus the facts about
  groups, flattening and renumbering.
- `Sqlpp` (sqlpp.dfy): the database as an oracle class `Conn` with a log of
  every call made on it, the rows as a class `Rows`, `parse`, and the class
  `DB` with its statement cache field `stmts`, `Prepare`, the three
  wrappers and `Close`.

The database is modelled by `Conn`: each call is appended to `conn.log`;
its answer is given by oracle functions fixed when the `Conn` is built,
applied to the number of earlier calls and the call itself. So any
behaviour of a real database over time can be represented, and "no call on
a cache hit", "exactly one prepare on a miss" and "each statement closed
exactly once" are statements about the log. Prepared statements are
handles `Stmt(id)` with fresh ids.

## Model

| member | source | states |
|---|---|---|
| GoStrings.LastMarker | sqlpp.go:45 | `strings.LastIndex(s, "(?)")`: -1 or a marker offset, with no marker after it |
| GoStrings.MarkersApart | sqlpp.go:48-51 | two `(?)` markers never overlap |
| GoStrings.CountConcat | sqlpp.go:86 | `strings.Count` of a concatenation is the sum of the counts |
| GoStrings.ReplaceFirstAt | sqlpp.go:88 | `strings.Replace(s, "?", r, 1)` splices `r` in at the first `?` and keeps both sides |
| GoStrings.ReplaceFirstSkip | sqlpp.go:88 | a prefix without `?` is left alone by the replacement |
| GoStrings.FirstOccurrence | sqlpp.go:88 | a string that counts a `?` has a first `?` |
| GoStrings.Repeat | sqlpp.go:63 | `strings.Repeat(s, n)` has length `|s| * n` |
| GoStrings.Itoa | sqlpp.go:88 | `strconv.Itoa(n)`: non-empty, only digits, no leading zero |
| GoStrings.ItoaRoundTrip | sqlpp.go:88 | reading the numeral of `n` back gives `n` |
| GoStrings.ItoaHasNoQuestion | sqlpp.go:88 | a numeral holds no `?`, so renumbering never re-reads its own output |
| MySql.ClassifierByCharacters | mysql.go:11-13 | unsupported iff the error is non-nil and its first eleven characters spell `Error 1295:` |
| MySql.NilIsNotUnsupported | mysql.go:12 | a nil error is not the unsupported kind |
| MySql.EmptyMessageIsNotUnsupported | mysql.go:12 | an error with an empty message is not the unsupported kind |
| MySql.ServerMessageIsUnsupported | mysql.go:12 | the MySQL server's 1295 message is the unsupported kind |
| MySql.ExtensionIsUnsupported | mysql.go:8-12 | every message that starts with `Error 1295:`, the prefix alone included, is the unsupported kind |
| MySql.ShortMessageIsNotUnsupported | mysql.go:8-12 | a message shorter than the prefix, such as `Error 129`, is not the unsupported kind |
| MySql.OtherCodeIsNotUnsupported | mysql.go:8-12 | a message differing from the prefix in one of its first eleven characters is not the unsupported kind |
| Transform.MarkerIndicesExact | sqlpp.go:45-51 | the offsets the first loop collects are exactly the markers of the query, pairwise apart, last marker first |
| Transform.Transform | sqlpp.go:44-93 | the Go loops compute `TransformSpec`: expansion, then, for PostgreSQL, renumbering |
| Transform.CollectMarkers | sqlpp.go:45-51 | the first loop yields every marker offset, last first, and the query cut before its first marker |
| Transform.ExpandArgs | sqlpp.go:53-79 | the argument loop appends the expansion of the arguments to the query prefix and builds the flattened argument list |
| Transform.AppendElements | sqlpp.go:72-74 | a list's elements are appended to the arguments one by one, in order |
| Transform.Renumber | sqlpp.go:85-90 | the renumbering loop replaces the `?` left to right by `$1..$n` |
| Transform.NumberHasNoQuestion | sqlpp.go:85-90 | after renumbering no `?` is left |
| Transform.NumberIdentity | sqlpp.go:85-90 | text without `?` is not changed by renumbering |
| Transform.NumberConcat | sqlpp.go:85-90 | renumbering a concatenation continues counting in the second part where the first stopped |
| Transform.RenumberStep | sqlpp.go:87-89 | one loop step replaces the `n`-th `?` of the original text by `$n`, keeping the numbered part before it |
| Transform.NumberRest | sqlpp.go:87-90 | once every `?` is numbered, the loop's text is the renumbered query |
| Markers.ReplaceFromNone | sqlpp.go:69 | with no groups left the rest of the text is copied unchanged |
| Markers.ReplaceFromSkip | sqlpp.go:67 | text without a marker is copied unchanged |
| Markers.ReplaceMarkersNoMarker | sqlpp.go:45 | without markers the reference leaves the query as it is |
| Markers.ExpandFromNoLists | sqlpp.go:76-77 | scalar arguments add no query text |
| Markers.ExpandFromPastLast | sqlpp.go:66-70 | once all markers are consumed each further list emits its group and the tail after the last marker again |
| Markers.ExpandFromConcat | sqlpp.go:55-79 | the expansion of concatenated argument lists is the concatenation of their expansions |
| Markers.ReplaceFromExpand | sqlpp.go:55-79 | scanning from a marker with the lists' groups gives the expansion followed by the text from the first marker no list is left for |
| Markers.ExpandAgainstReference | sqlpp.go:44-83 | with at most as many lists as markers, the expanded query plus the unconsumed rest is the query with its first `k` markers replaced by the groups in argument order |
| Markers.ExpandMatched | sqlpp.go:44-83 | as many lists as markers: every marker becomes its list's group, all literal text is kept, the arguments are flattened |
| Markers.ExpandFewerLists | sqlpp.go:55-79 | fewer lists than markers: the output stops right before the first unconsumed marker |
| Markers.ExpandNoLists | sqlpp_test.go:31-35 | markers but no list: only the text before the first marker, and a non-nil copy of the scalars (empty for nil) |
| Markers.ExpandExtraLists | sqlpp.go:66-70 | more lists than markers: each extra list emits its group and the tail after the last marker again |
| Markers.TransformNoMarker | sqlpp.go:44-93 | no marker: query and arguments unchanged, a nil argument list stays nil; PostgreSQL only renumbers |
| Markers.DialectsAgree | sqlpp.go:85-92 | the PostgreSQL query is the MySQL query renumbered, with the same arguments |
| Markers.GroupShape | sqlpp.go:60-64 | an empty list keeps `(?)`; a list of `l` elements yields `(` + `l` comma-joined `?` + `)` |
| Markers.RepeatPlaceholders | sqlpp.go:63 | cutting `?,` repeated `l` times to `2l-1` characters gives `l` comma-joined `?` |
| Markers.PlaceholdersCount | sqlpp.go:63 | `l` placeholders hold `l` `?`, `l-1` commas, `2l-1` characters |
| Markers.GroupCount | sqlpp.go:60-64 | a group holds one `?` per list element, and one for an empty list |
| Markers.FlattenLength | sqlpp.go:55-79 | the output argument list holds every scalar and every list element |
| Markers.FlattenConcat | sqlpp.go:55-79 | flattening distributes over concatenation |
| Markers.FlattenSplice | sqlpp.go:72-74 | a list contributes its elements exactly where it stood, the arguments around it keep their order |
| Markers.FlattenScalars | sqlpp.go:76-77 | scalars only: the output arguments are the input arguments |
| Markers.ReplaceFromQuestions | sqlpp.go:55-79 | each marker the scan replaces trades its one `?` for the `?` of its group; all other text keeps its `?` |
| Markers.UsedAll | sqlpp.go:66-70 | scanning from a marker of the chain puts every group in place, as long as there are no more groups than markers |
| Markers.GroupsQuestionsArgs | sqlpp.go:55-79 | with no empty list, the groups hold one `?` per list element, so groups and scalars together count every output argument |
| Markers.ExpandPlaceholderCount | sqlpp.go:44-83 | as many lists as markers, no empty list, and one literal `?` per scalar besides the markers: the output query holds exactly one `?` per output argument (an empty list keeps `(?)` and adds no argument, so that condition is needed) |
| Markers.NumberAt | sqlpp.go:85-90 | the `?` at offset `j` becomes `$` and the count of `?` before it plus one |
| Sqlpp.ScanAllSucceeds | sqlpp.go:130-141 | when every row scans, the results are one per row, in row order |
| Sqlpp.ScanAllFails | sqlpp.go:131-136 | the first row that does not scan decides the error |
| Sqlpp.ParseResultCases | sqlpp.go:124-128 | nil rows are reported before a nil scanner; the results are there exactly when the error is not |
| Sqlpp.Parse | sqlpp.go:123-142 | the parse loop returns `ParseResult` of the pending rows; rows are closed after a scan error and after the last row |
| Sqlpp.PrepareStep | sqlpp.go:95-119 | a prepare returns exactly one of a statement and an error |
| Sqlpp.PrepareHit | sqlpp.go:98-102 | a cached statement or sticky error is returned with no database call and the cache unchanged |
| Sqlpp.PrepareMiss | sqlpp.go:108-118 | a miss prepares exactly once; success caches the statement, the 1295 error is cached as sticky, any other error is not cached |
| Sqlpp.PrepareOnlyThisKey | sqlpp.go:108-118 | no cache entry but the one for the transformed query changes |
| Sqlpp.PrepareKeepsInvariant | sqlpp.go:108-118 | sticky entries hold 1295 errors and cached statements are distinct handles, before and after a prepare |
| Sqlpp.PrepareTwice | sqlpp_test.go:107-132 | a second prepare of the same query makes no database call exactly when the first succeeded or hit the 1295 error, and then returns the same |
| Sqlpp.RouteOf | sqlpp.go:165-174 | the wrappers run the statement without an error, run directly for the 1295 error only, and return any other error as it is |
| Sqlpp.DB.MySQL | sqlpp.go:22-33 | `NewMySQL`: MySQL dialect, empty cache |
| Sqlpp.DB.PostgreSQL | sqlpp.go:18-33 | `NewPostgreSQL`: PostgreSQL dialect, empty cache |
| Sqlpp.DB.Prepare | sqlpp.go:95-119 | transforms the query and behaves as `PrepareStep` on the cache and the log |
| Sqlpp.DB.Exec | sqlpp.go:161-175 | prepare, then the statement's exec, a direct exec for the 1295 error, or the error itself, with the transformed query and arguments |
| Sqlpp.DB.QueryRow | sqlpp.go:177-191 | likewise for a single-row query, returning only the scan error |
| Sqlpp.DB.Query | sqlpp.go:193-214 | likewise for a query, whose rows are parsed with the scanner; a query error is returned with no results; the rows the query opened end closed whenever a scanner is given, so in particular on success |
| Sqlpp.DB.Close | sqlpp.go:148-159 | closes the cached statements in some order of the keys, each cached statement exactly once in the calls it makes, empties the cache, then closes the database and returns its error |
| Sqlpp.CloseCached | sqlpp.go:149-155 | the range over the cache closes the cached statements of every key exactly once, in some order of the keys, and skips sticky entries |
| Sqlpp.CloseCallsOnlyCached | sqlpp.go:149-155 | `Close` closes only statements held in the cache, never a sticky entry |
| Sqlpp.CloseCallsCount | sqlpp.go:149-155 | over distinct keys each cached statement is closed once if its key is visited and never otherwise |
| Sqlpp.CloseClosesEachOnce | sqlpp.go:148-159 | `Close` closes every cached statement exactly once and nothing else |

## Left out

- Concurrency: `sync.Map` makes the cache safe for concurrent use; the model is sequential, so racing misses (last writer wins) and `Close` racing with `prepare` are not modelled.
- `database/sql` and the driver are the oracle class `Conn` and the class `Rows`; no real I/O is modelled. `context` values (cancellation, deadlines) are dropped, so `Exec`/`ExecContext` and the other pairs are one method each.
- `Scan(dest...)` into caller pointers: `DB.QueryRow` returns only the scan error; the destinations are not modelled.
- The scanner receives the current row's value instead of the `*sql.Rows`; `rows.Err()`, which `parse` never looks at, is not modelled either.
- Reflection: an argument is `Scalar(v)` or `List(items)` instead of being classified by `reflect.Kind`. With a `(?)` marker in the query, an untyped nil argument makes Go panic in `reflect.TypeOf(nil).Kind()`; the model treats such a value as a scalar and does not model the panic (without a marker the Go code passes it through, as the model does). `[]byte` arguments count as lists in Go only because a byte slice is a slice; the model leaves that classification to whoever builds the `Arg`.
- The branch that deletes a cache entry that is neither a statement nor an error (sqlpp.go:103-104) cannot be reached, since only those two are ever stored; `Entry` has exactly these two cases.
- `Args` is the identity on its variadic arguments and has no model of its own.
- `Stmt.Close` errors are ignored by `Close`, and so by the model; a nil scanner makes `parse` return without closing its rows, which the model reproduces (`Parse` leaves the rows unchanged).
- `Close` empties the cache before it closes the database; the model states the final state (empty cache, database close as the last logged call), not the order of the two steps inside the method.
- Go strings are UTF-8 bytes and offsets count bytes; the model's strings are `seq<char>` and offsets count characters. The tokens searched for are ASCII, so both cut the query at the same places.
