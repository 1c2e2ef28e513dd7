# JSON query panel: the query engine

A model of the query engine of `GenericJsonQueryPanel`, a Swing panel. The panel
loads a JSON document whose root is an array of records. It filters the array by
a dotted key path and a value. It lists every dotted key path in the document, and
it exports the matched records. The model covers four parts:

- **Key-path resolution** (`PathResolver`). `getValueAtKeyPath` answers absent
  for an empty path. Otherwise it splits the path on `.` with Java's
  `String.split` rules, so trailing empty pieces are dropped. It then follows
  the pieces through object fields only. A missing field, or a piece applied to
  anything that is not an object, gives absent. A field holding JSON `null` is
  present.
- **The match decision** (`Matcher`). An absent target never matches. An empty
  trimmed value matches every present target. A number tested against a value
  containing `-` uses a range test: split on `-`, parse pieces 0 and 1, and test
  both bounds inclusively. A bound that does not parse means no match. A missing
  piece raises an out-of-bounds exception that the code does not catch, and the
  model keeps it as the outcome `IndexOutOfBounds`. Every other case compares
  the target's text with the value, ignoring case.
- **The query loop** (`Query`, `Session.QueryPanel.QueryJson`). Without an array
  root the loop returns before touching anything. Otherwise it clears the match
  list and appends each matching element in array order. An uncaught exception
  stops it and leaves the matches collected so far.
- **Key-path enumeration** (`KeyPaths`). `extractKeyPaths` adds `prefix.field`
  for every object field at any depth. It looks through arrays with the same
  prefix. It collects into a `TreeSet`, which the model represents as the class
  `KeySet`, a strictly sorted sequence without duplicates.

The session state is the class `Session.QueryPanel`. Its fields are `rootNode`
and `matchedNodes`, and its methods model `loadJsonFile`, `queryJson`,
`inspectKeys` and `exportResultsToFile`. A JSON document is the datatype
`JsonValue.Json`, and objects keep their members in document order.

The text of the key and value fields and the parsed document are parameters of
these methods. The user's choice in the save dialog is the `approved` flag.

Where the code behaves in ways that are easy to misread, the model follows the code:

- A query over a root that is not an array keeps the previous match list. The
  early return comes before the list is cleared.
- A malformed range is not always a non-match. `"20-"` and `"-"` throw an
  uncaught out-of-bounds exception. `"abc-"` fails to parse piece 0 before
  piece 1 is fetched, so it is a plain non-match.
- Only the matched elements are stored. The resolved sub-value appears only in
  the report text.
- Key inspection runs on any loaded root, array or not.
- A path made only of dots, such as `"."`, splits into no pieces. It therefore
  resolves to the element itself.
- If the query run inside `loadJsonFile` throws, the `catch` reports "Failed to
  load JSON". The new document has already replaced the old one by then.
- Because of the split on `-`, a value that starts with `-` never matches a
  number. So `"-5-10"` matches nothing, and neither does the text of a negative
  number.
- The key listing is in `String.compareTo` order, which compares UTF-16 code
  units. A char above U+FFFF therefore sorts before one in U+E000-U+FFFF,
  although its scalar value is larger.

## Model

| member | source | states |
|---|---|---|
| `PathResolver.Walk` | src/main/java/GenericJsonQueryPanel.java:124-128 | follows the pieces one `get` at a time from the element, and is absent from the first missing step on (definition) |
| `PathResolver.Resolve` | src/main/java/GenericJsonQueryPanel.java:121-129 | absent for the empty path, otherwise the walk of the path's pieces as `split("\\.")` cuts them (definition) |
| `PathResolver.GetValueAtKeyPath` | src/main/java/GenericJsonQueryPanel.java:121-129 | an empty path gives absent; otherwise the loop that reassigns the current node per piece computes exactly the walk of the split pieces |
| `PathResolver.WalkNone` | src/main/java/GenericJsonQueryPanel.java:125 | once absent, a walk stays absent whatever pieces remain |
| `PathResolver.WalkAppend` | src/main/java/GenericJsonQueryPanel.java:124-127 | walking `a + b` is walking `a` and then `b` from the node reached, so resolution composes with a manual walk of the same segments |
| `PathResolver.StopsAtFirstMissingStep` | src/main/java/GenericJsonQueryPanel.java:124-127 | if the node reached after k pieces is absent, or is not an object holding piece k, the whole path is absent |
| `PathResolver.PresentMeansEveryStepPresent` | src/main/java/GenericJsonQueryPanel.java:124-128 | a present result means every intermediate node was an object that held the next piece |
| `PathResolver.SingleFieldPath` | src/main/java/GenericJsonQueryPanel.java:122-128 | a non-empty path without dots is one field lookup, and on an object whose field holds JSON null it resolves to that null, which is present |
| `PathResolver.ResolveJoinedPieces` | src/main/java/GenericJsonQueryPanel.java:123-128 | a path spelled from dot-free pieces (the last non-empty) resolves by walking exactly those pieces |
| `PathResolver.DotsOnlyPath` | src/main/java/GenericJsonQueryPanel.java:122-128 | a path of dots only splits into no pieces and resolves to the element itself |
| `PathResolver.TrailingDotIgnored` | src/main/java/GenericJsonQueryPanel.java:123 | appending a dot to a non-empty path does not change what it resolves to |
| `JsonValue.IsNumber` | src/main/java/GenericJsonQueryPanel.java:102 | `isNumber()`: true for number nodes only (definition) |
| `JsonValue.AsText` | src/main/java/GenericJsonQueryPanel.java:111 | `asText()`: a string is itself, a number its decimal text, null and booleans their literal, containers the empty text (definition) |
| `JsonValue.Find` | src/main/java/GenericJsonQueryPanel.java:126 | a field lookup is absent exactly when no member has the name, and otherwise returns the value of a member with that name |
| `JsonValue.Get` | src/main/java/GenericJsonQueryPanel.java:126 | `get(field)` on anything that is not an object is absent |
| `JsonValue.FindOwnName` | src/main/java/GenericJsonQueryPanel.java:150-151 | with unique names, looking up a member's own name yields that member's value |
| `KeyPaths.FieldLookupDuringWalk` | src/main/java/GenericJsonQueryPanel.java:150-151 | in well-formed JSON, `node.get(field)` during enumeration yields the value of the member being visited |
| `Matcher.RangeTest` | src/main/java/GenericJsonQueryPanel.java:103-109 | the try block: split on `-`, fetch and parse piece 0, then fetch and parse piece 1; a missing piece is the uncaught exception and a piece that does not parse is no match (definition) |
| `Matcher.Decide` | src/main/java/GenericJsonQueryPanel.java:96-112 | an absent target never matches; an empty value matches every present target; only a number tested against a value with `-` can throw |
| `Matcher.RangeOutcomes` | src/main/java/GenericJsonQueryPanel.java:102-109 | for every number and every value with `-`: it throws exactly when no piece is there or piece 0 parses and piece 1 is missing; a fetched piece that does not parse is no match; two parsed bounds give the inclusive test |
| `Matcher.BadUpperBoundDoesNotMatch` | src/main/java/GenericJsonQueryPanel.java:104-109 | a numeral, `-` and an upper bound that does not parse (e.g. `"20-abc"`) is no match and no exception |
| `Matcher.RangeIsInclusive` | src/main/java/GenericJsonQueryPanel.java:102-108 | for `"lo-hi"` written as two numerals, a number t matches exactly when lo <= t <= hi |
| `Matcher.TextBranch` | src/main/java/GenericJsonQueryPanel.java:110-111 | outside the range branch the decision never throws, and it is Match exactly when the lower-cased text of the target equals the lower-cased value |
| `Matcher.NumberMatchesItsText` | src/main/java/GenericJsonQueryPanel.java:111 | a non-negative number matches its own decimal text |
| `Matcher.LeadingMinusNeverMatches` | src/main/java/GenericJsonQueryPanel.java:104-109 | a value starting with `-` and not ending with one never matches a number (piece 0 is empty and fails to parse) |
| `Matcher.NegativeNumberNotMatchedByItsText` | src/main/java/GenericJsonQueryPanel.java:102-109 | a negative number is not matched by its own text, which takes the range branch |
| `Matcher.NegativeLowerBoundNeverMatches` | src/main/java/GenericJsonQueryPanel.java:104-109 | `"-5-10"` matches no number |
| `Matcher.NumeralThenDashFails` | src/main/java/GenericJsonQueryPanel.java:104-106 | a numeral followed by `-` (e.g. `"20-"`) throws the uncaught out-of-bounds exception for every number |
| `Matcher.DashesOnlyFails` | src/main/java/GenericJsonQueryPanel.java:104-105 | a value made of dashes only throws at piece 0 for every number |
| `Matcher.NonNumeralThenDashDoesNotMatch` | src/main/java/GenericJsonQueryPanel.java:104-109 | a non-numeral followed by `-` (e.g. `"abc-"`) is a caught parse failure: no match, no exception |
| `Matcher.StringWithDashComparedAsText` | src/main/java/GenericJsonQueryPanel.java:102-111 | a string target is compared as text, ignoring case, even when the value contains `-` |
| `Matcher.CaseInsensitiveExample` | src/main/java/GenericJsonQueryPanel.java:111 | `"Apple"` matches `"apple"` and does not match `"banana"` |
| `Matcher.NullIsPresent` | src/main/java/GenericJsonQueryPanel.java:96-111 | a JSON null target matches the empty value and the text `null` in any case |
| `Query.DecisionFor` | src/main/java/GenericJsonQueryPanel.java:94-112 | the decision for one element: its target under the key path, decided against the value (definition) |
| `Query.Run` | src/main/java/GenericJsonQueryPanel.java:93-118 | the loop's bookkeeping for given decisions: appends on Match, skips on NoMatch, stops at the exception (definition) |
| `Query.ScanElements` | src/main/java/GenericJsonQueryPanel.java:93-118 | the loop over the elements with their actual decisions (definition) |
| `Query.RunStopsAtFirstFailure` | src/main/java/GenericJsonQueryPanel.java:93-118 | for any per-element decisions, the loop's bookkeeping stops exactly at the first exception and visits everything when there is none |
| `Query.RunCollectsMatches` | src/main/java/GenericJsonQueryPanel.java:93-118 | for any per-element decisions, the collected list is the elements decided Match before the stopping point, in order, and no others |
| `Query.RunStopsAfterFailure` | src/main/java/GenericJsonQueryPanel.java:103-109 | for any per-element decisions, elements after an exception leave the result unchanged |
| `Query.StopsAtFirstFailure` | src/main/java/GenericJsonQueryPanel.java:93-118 | the loop stops exactly at the first element whose test throws, and otherwise visits every element |
| `Query.StopAfterFailure` | src/main/java/GenericJsonQueryPanel.java:103-109 | once an element's test has thrown, later elements change nothing |
| `Query.MatchesAreTheMatchingElements` | src/main/java/GenericJsonQueryPanel.java:93-118 | the match list is the matching elements before the stopping point, at strictly increasing positions, and a position is included if and only if its element matches |
| `Query.AbsentNeverMatched` | src/main/java/GenericJsonQueryPanel.java:94-96 | every collected element has a present target, whatever the value |
| `Query.EmptyValueSelectsPresent` | src/main/java/GenericJsonQueryPanel.java:88-101 | with an empty value nothing throws, and the collected elements are exactly those whose path is present, in order |
| `Query.EmptyKeyPathSelectsNothing` | src/main/java/GenericJsonQueryPanel.java:122 | an empty key path collects nothing and never throws |
| `Query.AgeRecordDecision` | src/main/java/GenericJsonQueryPanel.java:94-108 | the record `{"age": t}` matches `age` / `"20-30"` exactly when 20 <= t <= 30 |
| `Query.AgeRangeExample` | src/main/java/GenericJsonQueryPanel.java:93-118 | `[{"age":25},{"age":31},{"age":17}]` with `age` and `"20-30"` yields exactly the first record |
| `KeyPaths.Dotted` | src/main/java/GenericJsonQueryPanel.java:152 | the field alone under the empty prefix, otherwise `prefix + "." + field` (definition) |
| `KeyPaths.Paths` | src/main/java/GenericJsonQueryPanel.java:148-161 | the paths the walk adds: an object's member paths, an array's element paths, nothing for scalars (definition) |
| `KeyPaths.MemberPaths` | src/main/java/GenericJsonQueryPanel.java:150-155 | for each member in order, its dotted path and everything below it under that path (definition) |
| `KeyPaths.ItemPaths` | src/main/java/GenericJsonQueryPanel.java:157-159 | the union of the elements' paths, all under the unchanged prefix (definition) |
| `KeyPaths.KeySet.constructor` | src/main/java/GenericJsonQueryPanel.java:137 | a new TreeSet is empty and sorted |
| `KeyPaths.KeySet.Add` | src/main/java/GenericJsonQueryPanel.java:153 | adding keeps the set strictly sorted and adds exactly the one string |
| `KeyPaths.InsertKeepsOrder` | src/main/java/GenericJsonQueryPanel.java:137-153 | inserting a string at its ordered position keeps the sorted set strictly sorted and adds exactly that string |
| `KeyPaths.ExtractKeyPaths` | src/main/java/GenericJsonQueryPanel.java:148-161 | the recursive walk adds to the set exactly the enumerated paths of the node under the prefix and keeps the set sorted |
| `KeyPaths.RouteOf` | src/main/java/GenericJsonQueryPanel.java:148-161 | every enumerated path spells a route of field names through objects and arrays |
| `KeyPaths.RouteIsEnumerated` | src/main/java/GenericJsonQueryPanel.java:148-161 | the spelling of every route is enumerated |
| `KeyPaths.RoutePrefix` | src/main/java/GenericJsonQueryPanel.java:149-155 | every non-empty prefix of a route is a route |
| `KeyPaths.DottedPrefixesEnumerated` | src/main/java/GenericJsonQueryPanel.java:152-154 | every enumerated path spells a route, and the spelling of each of that route's non-empty prefixes is enumerated too |
| `KeyPaths.DottedFieldNameHasNoPrefix` | src/main/java/GenericJsonQueryPanel.java:150-154 | `{"a.b": null}` lists exactly `a.b` and not `a`, so prefixes hold for routes of field names, not for substrings of the text |
| `KeyPaths.ResolvedPiecesAreRoute` | src/main/java/GenericJsonQueryPanel.java:121-129 | pieces that resolve to something form a route, so their dotted spelling is among the enumerated paths |
| `KeyPaths.ArrayPathsAreElementPaths` | src/main/java/GenericJsonQueryPanel.java:156-159 | an array's paths are exactly the union of its elements' paths under the same prefix |
| `KeyPaths.NestingInArraysChangesNothing` | src/main/java/GenericJsonQueryPanel.java:156-159 | wrapping a value in arrays of any depth leaves its paths unchanged |
| `KeyPaths.TwoRecordsExample` | src/main/java/GenericJsonQueryPanel.java:148-161 | `[{"a":{"b":1}}, {"a":{"c":2}}]` has exactly the paths `a`, `a.b`, `a.c` |
| `Session.QueryPanel.constructor` | src/main/java/GenericJsonQueryPanel.java:21-23 | a new panel has no document and an empty match list |
| `Session.QueryPanel.QueryJson` | src/main/java/GenericJsonQueryPanel.java:84-119 | without an array root the match list is unchanged; otherwise it becomes the scan of the elements under the trimmed path and value, and the outcome reports where an exception stopped it |
| `Session.QueryPanel.LoadJsonFile` | src/main/java/GenericJsonQueryPanel.java:69-82 | an unreadable document changes nothing; otherwise the document replaces the root and the query runs again, and an exception from that query is reported although the document stays |
| `Session.QueryPanel.InspectKeys` | src/main/java/GenericJsonQueryPanel.java:131-146 | refused with no document; otherwise the listing is strictly sorted and contains exactly the enumerated paths |
| `Session.QueryPanel.ExportResultsToFile` | src/main/java/GenericJsonQueryPanel.java:163-180 | refused exactly when there are no matches; otherwise the written document is the array of the matched elements in order |
| `Session.ReloadExported` | src/main/java/GenericJsonQueryPanel.java:163-180 | exporting then loading the written file makes the root an array of exactly the exported matches in the same order |
| `Text.Trim` | src/main/java/GenericJsonQueryPanel.java:87-88 | the trimmed text starts and ends with a non-blank char, and it is empty exactly when the input is all blanks |
| `Text.TrimCutsOnlyBlanks` | src/main/java/GenericJsonQueryPanel.java:87-88 | the trimmed text is a slice of the input with only blanks cut before and after it; with Trim's own contract this fixes the result |
| `Text.TrimExample` | src/main/java/GenericJsonQueryPanel.java:87-88 | `" ab "` trims to `"ab"` |
| `Text.TrimIdempotent` | src/main/java/GenericJsonQueryPanel.java:87-88 | trimming twice is trimming once |
| `Text.SplitAll` | src/main/java/GenericJsonQueryPanel.java:123 | the pieces contain no separator and join back, with the separator, to the input |
| `Text.Split` | src/main/java/GenericJsonQueryPanel.java:123 | the result is the whole string when the separator is absent, and otherwise the pieces with the trailing empty ones dropped |
| `Text.SplitAllJoin` | src/main/java/GenericJsonQueryPanel.java:123 | splitting undoes joining separator-free pieces |
| `Text.SplitPair` | src/main/java/GenericJsonQueryPanel.java:104 | `a-b` with dash-free `a` and non-empty dash-free `b` splits into exactly `[a, b]` |
| `Text.ParseDecimal` | src/main/java/GenericJsonQueryPanel.java:105-106 | `Double.parseDouble` on integer literals: a result means the trimmed text was non-empty (see ParseIntToString for the round trip) |
| `Text.ParseIntToString` | src/main/java/GenericJsonQueryPanel.java:105-106 | parsing the decimal text of any integer gives that integer back |
| `Text.EqualsIgnoreCase` | src/main/java/GenericJsonQueryPanel.java:111 | `equalsIgnoreCase`: equal lengths, and each pair of chars equal after upper-casing or after lower-casing (definition) |
| `Text.EqualsIgnoreCaseIsLowerEquality` | src/main/java/GenericJsonQueryPanel.java:111 | `equalsIgnoreCase` holds exactly when the lower-cased strings are equal |
| `Text.Less` | src/main/java/GenericJsonQueryPanel.java:137 | `compareTo(a, b) < 0`: the first differing char decides by its UTF-16 code units, and a proper prefix comes first (definition) |
| `Text.SupplementaryBeforeFullwidth` | src/main/java/GenericJsonQueryPanel.java:137 | U+1F600 sorts before U+FF21, as in Java (first code unit 0xD83D against 0xFF21), although its scalar value is larger |
| `Text.LessTransitive` | src/main/java/GenericJsonQueryPanel.java:137 | the TreeSet's string order is transitive |
| `Text.LessTotal` | src/main/java/GenericJsonQueryPanel.java:137 | any two different strings are ordered one way or the other |
| `Text.LessIrreflexive` | src/main/java/GenericJsonQueryPanel.java:137 | no string precedes itself |
| `Text.StrictlySortedDistinct` | src/main/java/GenericJsonQueryPanel.java:137-140 | a strictly sorted listing has no duplicates |

## Left out

- The Swing layout, the buttons and message dialogs, the file choosers, the live re-query on every keystroke, and `main`. The text fields' contents, the parsed document and the save-dialog choice are parameters instead.
- Jackson parsing and pretty-printing, and writing the export file. Load takes an already-parsed document, or None for a file that could not be read. Export returns the array it would write. A failed write is not modelled. `Session.ReloadExported` assumes that writing the array to a file and reading it back gives the same value, so its round trip holds by construction.
- The report text in the result area: its clearing and the "Match: ... Full Node: ..." lines.
- Cancelling the open dialog in `loadJsonFile`, where nothing happens.
- The display of the key listing joined with newlines. `InspectKeys` returns the listing itself.
- Floating point. Numbers in documents are integers, and `Double.parseDouble` is modelled only for integer literals with an optional sign and surrounding blanks. A bound such as `1.5`, `1e3`, `NaN` or `20d` therefore counts as a parse failure, not as a number.
- `Text.ParseDecimal`: accepts integer literals only, so it is weaker than `Double.parseDouble`, because floating-point syntax is not modelled.
- `JsonValue.AsText`: renders numbers as integers, so it does not model Jackson's rendering of non-integral numbers such as `20.0`.
- `Text.EqualsIgnoreCase`: folds ASCII letters only, so it does not model Unicode case mapping.
- Object members are a sequence, and lookup takes the first member with the name. Jackson's object node is a map, so on duplicate names it keeps one value. On well-formed documents (`JsonValue.WellFormed`, unique names) the two agree.
- The TreeSet's red-black tree is modelled as a sorted sequence with linear insertion. Only its contents and its iteration order are modelled.
- Jackson's missing node: `get` never returns one here, so the `isMissingNode` test is the same as the null test.
