# spark-jdbc driver and service, modelled in Dafny

spark-jdbc is a JDBC driver that runs SQL over files through Apache Spark.
This project models two parts of it:

- **SparkDriver**: which URLs the driver accepts, and how a `jdbc:spark:` URL splits into a Spark master and a query string.
  It also models how the query string (`k=v&k2=v2`, URL-encoded) becomes connection properties merged over the caller's, the requirement that a `config` property names a configuration file, `getPropertyInfo` and `jdbcCompliant`.
- **SparkService**: option filtering by prefix (`getOptions`), the table names a parsed plan refers to (`getRelations`), and the binding step (`prepareTempView`).
  Binding loads each referenced table and records its schema in the process-wide `metaData` registry.
  Two catalog queries read that registry back: `getTables` and `getColumns`.

## Modules

- `Outcomes` (`outcomes.dfy`): `Option` and `Result`.
- `JavaText` (`java_text.dfy`): the `java.lang.String` behaviour the code relies on.
  This covers `toLowerCase`, `equalsIgnoreCase`, `indexOf(char)` and `split` with a one-character pattern.
  For `split`, trailing empty strings are dropped, and a string without the separator gives itself alone.
- `UrlDecoding` (`url_decoder.dfy`): `java.net.URLDecoder.decode` and its three error cases, with an encoder used to state the round trip.
- `SparkDriver` (`spark_driver.dfy`): the driver.
  `Properties` is a class whose `entries` map `connect` changes through `putAll`; `getProperty` falls back to its `defaults` map.
- `SparkService` (`spark_service.dfy`): the service.
  The static `metaData` map is the `SchemaRegistry` class, which every `Service` shares by reference.

`parseUrlIno`, `connect`, `prepareTempView` and `getColumns` are loops or state changes in the source, so they are methods here.
Each method is proved against a specification function (`ParseQuery`, `ConnectOutcome`, `Bound`, `FirstMatch`/`FirstUnmapped`), and lemmas state what that function means.

The engine is passed in as parameters:
- the Spark dataset loader;
- `SupportedFormat.getSparkPath`;
- `JdbcUtils.getCommonJDBCType`;
- the iteration order of the registry's entry set (`order`, a duplicate-free enumeration of its keys);
- the iteration order of the table set, which is a nondeterministic choice.

Points of the code's behaviour that the model keeps as written:

- `prepareTempView` loads and records every referenced table on every call.
  It does not check whether a table is already bound.
  `RebindingChangesNothing` shows that the registry still ends up the same when the datasets are the same.
- A table whose dataset cannot be loaded fails with the engine's error (`LoadFailed`), not with a dedicated "dataset not found" error.
  Tables recorded before the failure stay recorded.
- A plan leaf that is not a table reference contributes the empty name `""` to the relation set; it does not contribute nothing.
- Registry keys are stored exactly as given.
  `getTables` compares the path ignoring case, and `getColumns` compares both path and table ignoring case.
  Storing "orders" and "ORDERS" therefore gives two entries.
  `TableSchema.java` is not part of this model; its equality is taken to be value equality on both parts.

## Model

| member | source | states |
|---|---|---|
| JavaText.Lower | src/main/java/com/zensolution/jdbc/spark/internal/SparkService.java:74-75 | lower-casing keeps the length and lowers each character in place |
| JavaText.EqualsIgnoreCase | src/main/java/com/zensolution/jdbc/spark/internal/SparkService.java:98 | a string always equals itself ignoring case, so a key stored under the connection's own path and table is always found |
| JavaText.EqualsIgnoreCaseIsLowerEquality | src/main/java/com/zensolution/jdbc/spark/internal/SparkService.java:98 | equalsIgnoreCase holds exactly when the lower-cased strings are equal |
| JavaText.EqualsIgnoreCaseTransitive | src/main/java/com/zensolution/jdbc/spark/internal/SparkService.java:115-116 | equalsIgnoreCase is transitive, so path and table matching is an equivalence |
| JavaText.IndexOf | src/main/java/com/zensolution/jdbc/spark/SparkDriver.java:48 | -1 exactly when the character is absent; otherwise the position of its first occurrence |
| JavaText.Pieces | src/main/java/com/zensolution/jdbc/spark/SparkDriver.java:76 | at least one piece, and no piece holds the separator |
| JavaText.TrimTrailingEmpty | src/main/java/com/zensolution/jdbc/spark/SparkDriver.java:76 | returns a prefix of the list that ends in a non-empty string; everything dropped is empty |
| JavaText.JoinPieces | src/main/java/com/zensolution/jdbc/spark/SparkDriver.java:76 | the pieces joined by the separator give back the original string |
| JavaText.SplitOfJoin | src/main/java/com/zensolution/jdbc/spark/SparkDriver.java:76 | split inverts join for separator-free pieces whose last is non-empty, whatever separators trail |
| JavaText.Split | src/main/java/com/zensolution/jdbc/spark/SparkDriver.java:76-78 | no part holds the separator; a string without the separator is its own single part; with the separator, the result is empty or ends in a non-empty part |
| JavaText.SplitEmpty | src/main/java/com/zensolution/jdbc/spark/SparkDriver.java:76 | split gives no parts exactly when the string is non-empty and made of separators only |
| JavaText.SplitShape | src/main/java/com/zensolution/jdbc/spark/SparkDriver.java:78 | a string with the separator is split's result joined back, followed by the separators whose empty pieces split dropped |
| JavaText.SplitInTwo | src/main/java/com/zensolution/jdbc/spark/SparkDriver.java:78-80 | a two-part split is key, separator, non-empty value, trailing separators, with both parts separator-free |
| JavaText.SplitInTwoOf | src/main/java/com/zensolution/jdbc/spark/SparkDriver.java:78-80 | conversely, every string of that shape splits into exactly those two parts |
| UrlDecoding.ParseHexField | src/main/java/com/zensolution/jdbc/spark/SparkDriver.java:81-82 | Integer.parseInt radix 16 of the two escape characters: a value in -15..255, negative only after '-', errors carry the two characters |
| UrlDecoding.Decode | src/main/java/com/zensolution/jdbc/spark/SparkDriver.java:81-82 | decoding never lengthens the text and fails only on text containing '%' |
| UrlDecoding.DecodePlain | src/main/java/com/zensolution/jdbc/spark/SparkDriver.java:81-82 | text without '%' and '+' decodes to itself |
| UrlDecoding.DecodeEncode | src/main/java/com/zensolution/jdbc/spark/SparkDriver.java:81-82 | decoding the URL-encoding of ASCII text gives back the text |
| SparkDriver.AcceptsUrl | src/main/java/com/zensolution/jdbc/spark/SparkDriver.java:94-98 | true exactly when the URL begins with "jdbc:spark:" |
| SparkDriver.UrlParts | src/main/java/com/zensolution/jdbc/spark/SparkDriver.java:46-53 | a URL built from the prefix, a '?'-free master and an optional query takes apart into that master (with "spark:" before a leading "//") and that query |
| SparkDriver.MasterOf | src/main/java/com/zensolution/jdbc/spark/SparkDriver.java:47-52 | the master never holds '?' |
| SparkDriver.QueryOf | src/main/java/com/zensolution/jdbc/spark/SparkDriver.java:47-53 | there is a query string exactly when the URL holds '?' |
| SparkDriver.SplitUrl | src/main/java/com/zensolution/jdbc/spark/SparkDriver.java:47-52 | the master and query string taken apart inline are exactly MasterOf and QueryOf of the URL |
| SparkDriver.SegmentEntry | src/main/java/com/zensolution/jdbc/spark/SparkDriver.java:78-85 | a segment without '=' is the invalid property that segment; an invalid-property error always names the segment itself; a segment never fails for a missing config |
| SparkDriver.ApplySegments | src/main/java/com/zensolution/jdbc/spark/SparkDriver.java:77-90 | setting segments keeps every earlier key; an invalid-property error names one of the segments |
| SparkDriver.ParseQuery | src/main/java/com/zensolution/jdbc/spark/SparkDriver.java:74-92 | an invalid-property error names one of the query's '&' segments; parsing never fails for a missing config |
| SparkDriver.ParseUrlInfo | src/main/java/com/zensolution/jdbc/spark/SparkDriver.java:74-92 | the loop over '&' segments returns exactly what ParseQuery specifies, stopping at the first bad segment |
| SparkDriver.FirstInvalid | src/main/java/com/zensolution/jdbc/spark/SparkDriver.java:77-86 | every segment before the returned position is a valid property and the one at it is not |
| SparkDriver.Entries | src/main/java/com/zensolution/jdbc/spark/SparkDriver.java:80-83 | one decoded (key, value) pair per segment, in segment order |
| SparkDriver.ApplySegmentsMeaning | src/main/java/com/zensolution/jdbc/spark/SparkDriver.java:77-90 | parsing fails at the first invalid segment with its error, otherwise sets each segment's pair in order |
| SparkDriver.AssignUntouched | src/main/java/com/zensolution/jdbc/spark/SparkDriver.java:83 | a key no segment sets keeps its value, or stays absent |
| SparkDriver.AssignLastWins | src/main/java/com/zensolution/jdbc/spark/SparkDriver.java:83 | a key ends with the value of the last segment that sets it |
| SparkDriver.AssignKeys | src/main/java/com/zensolution/jdbc/spark/SparkDriver.java:83 | the resulting keys are the earlier ones plus the keys set |
| SparkDriver.ParseQueryMeaning | src/main/java/com/zensolution/jdbc/spark/SparkDriver.java:74-92 | fails iff some segment is invalid, with the first one's error; otherwise the keys are exactly those set, each with its last value |
| SparkDriver.SegmentShape | src/main/java/com/zensolution/jdbc/spark/SparkDriver.java:78-86 | a valid segment is key '=' non-empty value plus trailing '=', neither part holding '=', and its entry is the two decoded parts |
| SparkDriver.SegmentOfShape | src/main/java/com/zensolution/jdbc/spark/SparkDriver.java:78-83 | every segment of that shape with decodable parts is valid, giving the decoded pair |
| SparkDriver.SinglePropertyAccepted | src/main/java/com/zensolution/jdbc/spark/SparkDriver.java:76-83 | "k=v" with any trailing '=' and '&' parses to exactly {k: v} |
| SparkDriver.LaterDuplicateWins | src/main/java/com/zensolution/jdbc/spark/SparkDriver.java:83 | "k=v1&k=v2" parses to {k: v2} |
| SparkDriver.OneBadSegmentRejected | src/main/java/com/zensolution/jdbc/spark/SparkDriver.java:78-86 | a query that is one segment, without '&', and does not split in two on '=' is rejected as that segment |
| SparkDriver.SeparatorsOnlyAccepted | src/main/java/com/zensolution/jdbc/spark/SparkDriver.java:76-91 | a query of one or more '&' alone splits into no segments and gives no properties |
| SparkDriver.AmpersandOnlyAccepted | src/main/java/com/zensolution/jdbc/spark/SparkDriver.java:76-91 | "&" parses to no properties, while the empty query is rejected |
| SparkDriver.EmptyQueryRejected | src/main/java/com/zensolution/jdbc/spark/SparkDriver.java:84-85 | an empty query string is rejected as the invalid property "" |
| SparkDriver.MissingValueRejected | src/main/java/com/zensolution/jdbc/spark/SparkDriver.java:78-85 | "k=" is rejected, because split drops the empty value |
| SparkDriver.LeadingAmpersandRejected | src/main/java/com/zensolution/jdbc/spark/SparkDriver.java:76-85 | "&k=v" is rejected at its empty first segment |
| SparkDriver.BareSegmentRejected | src/main/java/com/zensolution/jdbc/spark/SparkDriver.java:76-85 | "a&&b" is rejected at "a", the first bad segment |
| SparkDriver.SecondEqualsRejected | src/main/java/com/zensolution/jdbc/spark/SparkDriver.java:78-85 | "k=v=w" is rejected: three parts |
| SparkDriver.PropertyOf | src/main/java/com/zensolution/jdbc/spark/SparkDriver.java:59 | getProperty finds a value exactly when the key is an own entry or a default; the own entry wins over the default |
| SparkDriver.Properties.constructor | src/main/java/com/zensolution/jdbc/spark/SparkDriver.java:39-41 | a new Properties is empty, with no defaults |
| SparkDriver.Properties.PutAll | src/main/java/com/zensolution/jdbc/spark/SparkDriver.java:55 | the entries become the old ones overridden by the given ones; the defaults do not change |
| SparkDriver.MergedProperties | src/main/java/com/zensolution/jdbc/spark/SparkDriver.java:53-56 | merging keeps every key the caller gave; it fails only when there is a query string, and never for a missing config |
| SparkDriver.MergedWithQuery | src/main/java/com/zensolution/jdbc/spark/SparkDriver.java:53-56 | with a query string, the properties are the caller's overridden by the parsed ones, or the parse error |
| SparkDriver.UrlOverridesCaller | src/main/java/com/zensolution/jdbc/spark/SparkDriver.java:53-56 | a property the URL sets overrides the caller's; one it does not set survives |
| SparkDriver.ConnectOutcome | src/main/java/com/zensolution/jdbc/spark/SparkDriver.java:38-71 | null exactly when the URL is not accepted; a connection always has a non-empty config path and a master without '?' |
| SparkDriver.Connect | src/main/java/com/zensolution/jdbc/spark/SparkDriver.java:38-72 | returns ConnectOutcome for the caller's entries and defaults (both empty if null); the caller's entries receive the URL's properties exactly when the URL is accepted and its query parses; its defaults do not change |
| SparkDriver.ConnectMeaning | src/main/java/com/zensolution/jdbc/spark/SparkDriver.java:38-62 | connects iff the URL is accepted, its query parses and getProperty("config") on the merged properties is non-empty; a bad query fails first; the connection has the URL's master and that path, and anything else is "config must be specified" |
| SparkDriver.ConfigFromUrlWins | src/main/java/com/zensolution/jdbc/spark/SparkDriver.java:53-62 | a non-empty "config" in the URL wins over the caller's entry and its default |
| SparkDriver.ConnectWithoutQuery | src/main/java/com/zensolution/jdbc/spark/SparkDriver.java:46-62 | a URL without '?' connects on the caller's own "config", or its default |
| SparkDriver.PropertyInfo | src/main/java/com/zensolution/jdbc/spark/SparkDriver.java:100-103 | describes no properties |
| SparkDriver.JdbcCompliant | src/main/java/com/zensolution/jdbc/spark/SparkDriver.java:115-119 | the driver does not claim compliance |
| SparkService.GetOptions | src/main/java/com/zensolution/jdbc/spark/internal/SparkService.java:72-82 | fails exactly when two selected keys meet on one stored key, and then with the duplicate-key error; otherwise every property whose key has the prefix and a dot (ignoring case) is present under its stored key with its value, and nothing else |
| SparkService.KeepPrefixSelects | src/main/java/com/zensolution/jdbc/spark/internal/SparkService.java:72-82 | keeping the prefix never fails and gives exactly the selected properties, unchanged |
| SparkService.StrippedKeyShape | src/main/java/com/zensolution/jdbc/spark/internal/SparkService.java:74-78 | a stripped key is what follows the key's own spelling of the prefix and its dot |
| SparkService.PrefixCaseCollision | src/main/java/com/zensolution/jdbc/spark/internal/SparkService.java:74-80 | keys that differ only in the prefix's case ("csv.header", "CSV.header") make stripping fail, while keeping the prefix succeeds |
| SparkService.Relations | src/main/java/com/zensolution/jdbc/spark/internal/SparkService.java:84-93 | a name is in the set iff some leaf is a table reference with that name, or it is "" and some leaf is not a table reference; never more names than leaves |
| SparkService.RepeatedReferenceCollapses | src/main/java/com/zensolution/jdbc/spark/internal/SparkService.java:92 | a table referred to again adds nothing to the set |
| SparkService.TableLeavesGiveNames | src/main/java/com/zensolution/jdbc/spark/internal/SparkService.java:88-92 | leaves that are all table references give exactly their distinct names |
| SparkService.SchemaRegistry.constructor | src/main/java/com/zensolution/jdbc/spark/internal/SparkService.java:31 | the registry starts empty |
| SparkService.SchemaRegistry.Put | src/main/java/com/zensolution/jdbc/spark/internal/SparkService.java:68 | inserts or overwrites one key and changes nothing else |
| SparkService.Service.constructor | src/main/java/com/zensolution/jdbc/spark/internal/SparkService.java:33-36 | the service keeps its connection and the shared registry |
| SparkService.Service.PrepareTempView | src/main/java/com/zensolution/jdbc/spark/internal/SparkService.java:58-70 | a duplicate option key fails with the registry unchanged. Otherwise every table recorded is bound to its loaded schema under (path, table), and no other entry changes. Success iff every referenced table loads, and then all of them are recorded. A failure names a referenced table whose load fails and that was not recorded |
| SparkService.RebindingChangesNothing | src/main/java/com/zensolution/jdbc/spark/internal/SparkService.java:62-69 | binding the same tables again over the same datasets leaves the registry as the first binding did |
| SparkService.TableRow | src/main/java/com/zensolution/jdbc/spark/internal/SparkService.java:100-107 | a getTables row has four string values, matching the header |
| SparkService.ColumnRow | src/main/java/com/zensolution/jdbc/spark/internal/SparkService.java:125-134 | a getColumns row has six values, each of its header column's type (DATA_TYPE an integer) |
| SparkService.TableRows | src/main/java/com/zensolution/jdbc/spark/internal/SparkService.java:97-101 | never more rows than keys, each row four values wide |
| SparkService.TableRowsMultiplicity | src/main/java/com/zensolution/jdbc/spark/internal/SparkService.java:97-101 | over distinct keys, a row occurs as often as there are keys under the path that give it |
| SparkService.TableRowsCount | src/main/java/com/zensolution/jdbc/spark/internal/SparkService.java:97-101 | one row per distinct key whose path matches ignoring case |
| SparkService.TableRowsMembers | src/main/java/com/zensolution/jdbc/spark/internal/SparkService.java:97-101 | a row is listed iff it is the row of some matching key |
| SparkService.TableRowsMeaning | src/main/java/com/zensolution/jdbc/spark/internal/SparkService.java:97-101 | getTables lists exactly the registry keys under the connection's path, one row each, and nothing from another path; each row occurs exactly as often as there are such keys that give it |
| SparkService.Service.GetTables | src/main/java/com/zensolution/jdbc/spark/internal/SparkService.java:95-111 | the fixed four-column header; well-typed rows; exactly one row per registry key under this path, ignoring case, each row as often as the keys that give it |
| SparkService.FirstMatch | src/main/java/com/zensolution/jdbc/spark/internal/SparkService.java:114-120 | findFirst: no earlier key matches both path and table ignoring case, and the one returned does |
| SparkService.NotLoadedMeaning | src/main/java/com/zensolution/jdbc/spark/internal/SparkService.java:114-120 | "has not been loaded" exactly when no registry key matches both path and table, ignoring case |
| SparkService.FirstUnmapped | src/main/java/com/zensolution/jdbc/spark/internal/SparkService.java:123-124 | every earlier field's type has a JDBC mapping, and the field at the position returned does not |
| SparkService.Service.GetColumns | src/main/java/com/zensolution/jdbc/spark/internal/SparkService.java:113-138 | not loaded iff no key matches. An unmapped field type fails with the first such type. Otherwise the fixed six-column header and one well-typed row per field in field order, carrying the requested table name, the field name and its JDBC code and type name |
| SparkService.BoundTableIsListed | src/main/java/com/zensolution/jdbc/spark/internal/SparkService.java:95-101 | after a table is bound, getTables under that path lists it |
| SparkService.BoundTableIsDescribed | src/main/java/com/zensolution/jdbc/spark/internal/SparkService.java:113-120 | after a table is bound, getColumns for it under that path finds a key and is never "not loaded" |

## Left out

- Building the Spark session (`buildSparkSession`, `SparkConfProvider`), `executeQuery`, and the SQL parser: the engine is outside the model. `prepareTempView` takes the parsed plan's leaves directly, so a `ParseException` is not modelled.
- `createOrReplaceTempView`: the session's temporary-view namespace belongs to the engine. Only the registry update is modelled.
- `Config.load` and its `IOException`: a connection is modelled as its master and the path of its config file.
- Driver registration, logging, `getMajorVersion`/`getMinorVersion` and `getParentLogger`: no behaviour to state beyond returning constants from files that are not part of this model.
- SparkDriver.Connect: property values are strings only, so a non-String value that makes `getProperty` return null is not modelled. The chain of defaults is flattened into one `defaults` map.
- Concurrency of the `ConcurrentHashMap` registry: each operation is treated as atomic.
- JavaText.Lower: models `toLowerCase(Locale.getDefault())` and `equalsIgnoreCase` for ASCII letters only. Locale and Unicode case mapping are not modelled.
- UrlDecoding.Decode: each escaped byte becomes one character of that code. Decoding runs of escapes as UTF-8 is not modelled, and neither are non-ASCII digits accepted by `Character.digit`.
- SparkService.GetOptions: the `IllegalStateException` raised by `Collectors.toMap` is modelled without its message text.
- SparkService.Service.PrepareTempView: the Spark loader is a function of the format name, options and location, so a load is deterministic. Load failures are modelled without their messages.
- SparkService.Service.GetTables: the `listTables().show()` call only prints, so it is not modelled.
- The schema of a dataset is modelled by field names and type names; a field's nullability and metadata are not carried.
