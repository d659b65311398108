# Connection arguments of a table

This project models how PostGraphQL builds the arguments of a paginated
"connection" field over one database table, in
`src/graphql/createConnectionArgs.js`.

- `createConnectionArgs(table, ignoreColumnConditions = [])` returns one
  object. It holds seven fixed arguments in this order: `orderBy`, `first`,
  `last`, `before`, `after`, `offset` and `descending`. It then spreads in one
  equality-filter argument for every column that is not in the ignore list.
  Each filter is keyed by the column's field name and typed by the column's
  nullable type.
- When no kept column has the same field name, `orderBy` is typed by the
  table's ordering enum. It defaults to the storage name of the first
  primary-key column, or to `null` when the table has no primary key. Under
  the same condition `descending` defaults to `false` and the other fixed
  arguments have no default.
- `createTableOrderingEnum` is memoised per table object. It builds an enum
  named `<TypeName>Ordering` with one member per column, keyed by
  `toUpper(snakeCase(fieldName))`, whose value is the column's storage name.
  Because `fromPairs` builds the members, a later column wins when two
  columns give the same key.

Modules:

- `Assoc` models a JavaScript plain object as an ordered list of entries.
  Writing a property replaces its value where it stands, or appends it when
  the key is new. `fromPairs` and object spread are both folds of that write.
- `Schema` holds the tables, columns and schema types the builder reads.
  Object identity is an explicit id.
- `SnakeCase` is an ASCII model of `toUpper(snakeCase(name))`.
- `OrderingEnums` holds the enum builder and the memo. The memo has two
  forms:
  - a pure state machine (`GetOrBuild`, `Calls`);
  - the class `OrderingEnumFactory`, with a cache map and a fresh-id
    counter. Its method `Get` is proved against `GetOrBuild`.
- `ConnectionArgs` builds the argument object (`Arguments`) and states its properties.
- `Scenarios` works through two concrete tables.

Two details of the code worth stating:

- With no primary key, `orderBy` does not lack a default: the code sets the
  default to `null` (lines 16-20). The model follows the code, with
  `NullDefault` distinct from `NoDefault`.
- The enum does not always have exactly one member per column. Columns whose
  keys coincide collapse into one member, so there are at most as many
  members as columns. The model proves this bound, and proves one member per
  column when the keys are distinct.
- A filter can replace a fixed argument. The filters are spread over the
  fixed arguments (line 53), so a kept column whose field name is
  `orderBy`, `first`, `last`, `before`, `after`, `offset` or `descending`
  replaces that argument where it stands. `descending` is then that column's
  filter, which has no default, not `false` as line 50 says. The model proves
  this (`FilterArgumentIsLastColumn`), and the default lemmas hold exactly
  when no kept column takes the key.

## Model

| member | source | states |
|---|---|---|
| Assoc.Get | src/graphql/createConnectionArgs.js:53-62 | a property read finds a value exactly when the key is present, and the value is the one stored under that key |
| Assoc.Assign | src/graphql/createConnectionArgs.js:53-62 | a property write keeps the key order when the key exists, and otherwise appends the new entry at the end |
| Assoc.AssignGet | src/graphql/createConnectionArgs.js:53-62 | after a property write the written key reads back the new value and every other key reads as before |
| Assoc.FromPairs | src/graphql/createConnectionArgs.js:79-85 | `fromPairs` gives unique keys in first-occurrence order, and never more entries than pairs |
| Assoc.FreshKeys | src/graphql/createConnectionArgs.js:53-62 | the keys not yet seen, each once: membership is exactly "in the list and not seen", and the result has no duplicates |
| Assoc.LastValue | src/graphql/createConnectionArgs.js:79-85 | the last value written under a key exists exactly when the key occurs |
| Assoc.LastValueIsLast | src/graphql/createConnectionArgs.js:79-85 | the last value is carried by a pair with that key after which no pair has that key |
| Assoc.AssignKeepsKeysUnique | src/graphql/createConnectionArgs.js:53-62 | a property write never duplicates a key |
| Assoc.AssignAll | src/graphql/createConnectionArgs.js:53-62 | a run of property writes never loses an entry and adds at most one entry per write; its keys and values are stated by `AssignAllKeys` and `AssignAllGet` |
| Assoc.AssignAllKeys | src/graphql/createConnectionArgs.js:53-62 | after a run of writes the keys are the old keys followed by the new keys, in first-write order |
| Assoc.AssignAllGet | src/graphql/createConnectionArgs.js:53-62 | after a run of writes, a key reads its last written value, or its old value when it was not written |
| Assoc.AssignAllKeepsKeysUnique | src/graphql/createConnectionArgs.js:53-62 | a run of writes keeps the keys unique |
| Assoc.UniqueGetIsLast | src/graphql/createConnectionArgs.js:53-62 | on an object with unique keys the first and the last entry with a key are the same |
| Assoc.GetAtIndex | src/graphql/createConnectionArgs.js:10-52 | on an object with unique keys, reading the key of entry `i` gives entry `i`'s value |
| Assoc.FreshKeysCompose | src/graphql/createConnectionArgs.js:53-62 | dropping already-seen keys twice is the same as dropping them once against the larger set |
| Assoc.SpreadOfFromPairs | src/graphql/createConnectionArgs.js:53-62 | spreading `fromPairs(pairs)` over an object equals writing the pairs into it one by one |
| Assoc.FreshKeysOfDistinct | src/graphql/createConnectionArgs.js:53-62 | distinct keys that were not seen before are all kept, in order |
| Assoc.FromPairsOfDistinct | src/graphql/createConnectionArgs.js:79-85 | `fromPairs` of pairs with distinct keys is those pairs, unchanged |
| Schema.GetNullableType | src/graphql/createConnectionArgs.js:57 | the nullable type is the type itself, or the type it wraps when it is non-null; on a well-formed type it is never non-null |
| SnakeCase.UpperChar | src/graphql/createConnectionArgs.js:81 | `toUpper` on one character: a letter or digit becomes a capital or digit, and anything that is not a lower-case letter is left as it is |
| SnakeCase.Words | src/graphql/createConnectionArgs.js:81 | a name never splits into more words than it has characters; what the words are is stated by `WordsAreWords` and `WordsSpellWordChars` |
| SnakeCase.WordsSpellWordChars | src/graphql/createConnectionArgs.js:81 | the words written one after another are exactly the ASCII letters and digits of the name, in order: splitting drops only the separators |
| SnakeCase.WordEnd | src/graphql/createConnectionArgs.js:81 | the end of the current word lies between the search start and the end of the name |
| SnakeCase.WordsAreWords | src/graphql/createConnectionArgs.js:81 | every word split off a name is a non-empty run of ASCII letters and digits |
| SnakeCase.UpperWord | src/graphql/createConnectionArgs.js:81 | an upper-cased word keeps its length and holds only capitals and digits |
| SnakeCase.JoinUpper | src/graphql/createConnectionArgs.js:81 | the joined key is empty exactly when there are no words; it starts and ends with a capital or digit and holds only capitals, digits and `_` |
| SnakeCase.EnumKey | src/graphql/createConnectionArgs.js:81 | an enum key holds only capitals, digits and `_`, and never starts or ends with `_` |
| OrderingEnums.MemberPair | src/graphql/createConnectionArgs.js:81-84 | a column's member key holds only capitals, digits and `_`, never at either end, and its value is the column's storage name |
| OrderingEnums.MemberPairs | src/graphql/createConnectionArgs.js:80-84 | one member pair per column, in column order, keyed by the column's enum key and valued by its storage name and description |
| OrderingEnums.BuildOrderingEnum | src/graphql/createConnectionArgs.js:74-86 | the enum is named `<TypeName>Ordering`, its keys are unique and it has at most one member per column |
| OrderingEnums.EveryColumnIsAMember | src/graphql/createConnectionArgs.js:79-85 | every column of the table has a member |
| OrderingEnums.MemberPairKeys | src/graphql/createConnectionArgs.js:80-84 | a key occurs among the member pairs exactly when some column gives that key |
| OrderingEnums.MemberKeysAreColumnKeys | src/graphql/createConnectionArgs.js:79-85 | a key is a member exactly when some column of the table gives that key |
| OrderingEnums.LastMemberPair | src/graphql/createConnectionArgs.js:79-85 | the last member pair under a key is built from the last column whose field name gives that key |
| OrderingEnums.MemberIsLastColumnWithKey | src/graphql/createConnectionArgs.js:79-85 | the member under a key carries the storage name and description of the last column with that key |
| OrderingEnums.DistinctKeysGiveOneMemberPerColumn | src/graphql/createConnectionArgs.js:79-85 | when no two columns share a key, there is exactly one member per column, in column order |
| OrderingEnums.GetOrBuild | src/graphql/createConnectionArgs.js:74-75 | after a call the table is cached under the returned instance; a cached table returns its instance and changes nothing; a new table gets the next fresh instance, built from the table, and the counter moves on by one |
| OrderingEnums.GetOrBuildKeepsMemoValid | src/graphql/createConnectionArgs.js:74-75 | a call keeps the memo consistent, the returned instance exists, and an instance built for a new table differs from every earlier one |
| OrderingEnums.Calls | src/graphql/createConnectionArgs.js:74-75 | a run of calls returns one instance per call |
| OrderingEnums.CallsKeepEntries | src/graphql/createConnectionArgs.js:74-75 | over a run of calls, a table already cached keeps its instance |
| OrderingEnums.CallsKeepMemoValid | src/graphql/createConnectionArgs.js:74-75 | a run of calls keeps the memo consistent |
| OrderingEnums.CallAgreesWithCache | src/graphql/createConnectionArgs.js:74-75 | call `i` of a run returns the instance that is cached for its table at the end of the run |
| OrderingEnums.CallsAgreeWithCache | src/graphql/createConnectionArgs.js:74-75 | each call in a run returns the instance that is cached for its table at the end of the run |
| OrderingEnums.SameTableSameInstance | src/graphql/createConnectionArgs.js:74-75 | two calls return the same instance exactly when they are for the same table object |
| OrderingEnums.FirstCallBuilds | src/graphql/createConnectionArgs.js:74-86 | a call for a table not yet cached builds the instance that every later call for that table returns |
| OrderingEnums.InstanceIsBuiltOnFirstCall | src/graphql/createConnectionArgs.js:74-86 | the instance a call returns is the enum built from the table at the first call for that table |
| OrderingEnums.EnumsKept | src/graphql/createConnectionArgs.js:74-75 | an instance, once built, is never rebuilt or replaced |
| OrderingEnums.OrderingEnumFactory.constructor | src/graphql/createConnectionArgs.js:74 | the memo starts empty and consistent |
| OrderingEnums.OrderingEnumFactory.Get | src/graphql/createConnectionArgs.js:74-86 | a call moves the factory exactly as `GetOrBuild` does; a cached table gets its old instance with nothing changed, a new table a fresh instance built from it |
| ConnectionArgs.OrderByDefault | src/graphql/createConnectionArgs.js:16-20 | the `orderBy` default is never absent: the first primary-key column's name when the table has a primary key, and `null` otherwise |
| ConnectionArgs.FixedArgs | src/graphql/createConnectionArgs.js:10-52 | the literal writes the seven fixed keys in their fixed order; `orderBy` is typed by the table's ordering enum and `first`, `last`, `before`, `after` and `offset` have no default |
| ConnectionArgs.IsIgnored | src/graphql/createConnectionArgs.js:55 | lodash `includes` by identity: a column in the ignore list is ignored, and nothing is ignored by an empty list |
| ConnectionArgs.FilterColumns | src/graphql/createConnectionArgs.js:54-55 | a column is kept exactly when it is a table column that is not in the ignore list |
| ConnectionArgs.FilterArg | src/graphql/createConnectionArgs.js:56-61 | a filter has no default, and its type is the column's type with at most one non-null wrapper removed, so never non-null on a well-formed type |
| ConnectionArgs.FilterPairs | src/graphql/createConnectionArgs.js:56-61 | one pair per kept column, in order, keyed by its field name and valued by its filter argument |
| ConnectionArgs.Arguments | src/graphql/createConnectionArgs.js:6-63 | `createConnectionArgs` given the ordering enum: the seven fixed keys come first, in order, and at most one argument is added per column; its full key order and values are stated by `ArgumentKeyOrder` and `ArgumentValue` |
| ConnectionArgs.FilterKeysAreFieldNames | src/graphql/createConnectionArgs.js:53-62 | a key is a filter key exactly when some column that is not ignored has that field name |
| ConnectionArgs.FilterColumnsKeepsOrder | src/graphql/createConnectionArgs.js:54-55 | filtering keeps the columns' order: it distributes over concatenation |
| ConnectionArgs.ArgumentKeyOrder | src/graphql/createConnectionArgs.js:6-63 | keys are unique; the seven fixed keys come first in their fixed order, then the new filter keys in column order |
| ConnectionArgs.ArgumentKeySet | src/graphql/createConnectionArgs.js:6-63 | a key is an argument exactly when it is a fixed key or the field name of a column that is not ignored |
| ConnectionArgs.ArgumentValue | src/graphql/createConnectionArgs.js:6-63 | an argument is the filter written last under its key, or else the fixed argument |
| ConnectionArgs.LastFilterColumn | src/graphql/createConnectionArgs.js:53-62 | the filter written last under a field name comes from the last column that is not ignored and has that field name, and that column is returned |
| ConnectionArgs.FilterArgumentIsLastColumn | src/graphql/createConnectionArgs.js:6-63 | in the result, each filter key holds the filter of the last column with that field name, even when the key is a fixed key whose entry it replaces |
| ConnectionArgs.FixedArgumentKept | src/graphql/createConnectionArgs.js:6-63 | a key that no filter collides with keeps its fixed argument |
| ConnectionArgs.OrderByDefaultsToPrimaryKey | src/graphql/createConnectionArgs.js:10-20 | `orderBy` is typed by the ordering enum and defaults to the storage name of the first primary-key column, or to `null`, when no kept column is named `orderBy` |
| ConnectionArgs.DescendingDefaultsToFalse | src/graphql/createConnectionArgs.js:46-52 | when no kept column is named `descending`, `descending` is a boolean that defaults to `false` |
| ConnectionArgs.PageArgumentsHaveNoDefault | src/graphql/createConnectionArgs.js:22-45 | when no kept column takes their names, `first`, `last` and `offset` are integers and `before` and `after` are cursors, none with a default |
| ConnectionArgs.FilterArgumentsAreNullable | src/graphql/createConnectionArgs.js:53-62 | every filter argument exists, has no default, and its type is never non-null |
| ConnectionArgs.DefaultIgnoreListFiltersEveryColumn | src/graphql/createConnectionArgs.js:6-62 | with the default ignore list every column is kept and gets a filter key |
| ConnectionArgs.NothingIgnored | src/graphql/createConnectionArgs.js:6-55 | an empty ignore list keeps every column |
| ConnectionArgs.FilterColumnsOnlySeesTableColumns | src/graphql/createConnectionArgs.js:54-55 | two ignore lists that agree on the table's columns keep the same columns |
| ConnectionArgs.IgnoringForeignColumnsHasNoEffect | src/graphql/createConnectionArgs.js:53-62 | adding ignore entries that are not columns of the table leaves the arguments unchanged |
| ConnectionArgs.IgnoredColumnStaysOrderable | src/graphql/createConnectionArgs.js:11-86 | an ignored column gets no filter, yet it stays a member of the ordering enum |
| ConnectionArgs.CreateConnectionArgs | src/graphql/createConnectionArgs.js:6-86 | the factory moves as `GetOrBuild` does, and the arguments use the enum instance cached for the table, which is the old one when the table was cached |
| Scenarios.KeyOfFirstName | src/graphql/createConnectionArgs.js:81 | `firstName` gives the key `FIRST_NAME` |
| Scenarios.KeyOfLastName | src/graphql/createConnectionArgs.js:81 | `lastName` gives the key `LAST_NAME` |
| Scenarios.KeyOfCreatedAt | src/graphql/createConnectionArgs.js:81 | `createdAt` gives the key `CREATED_AT` |
| Scenarios.UsersOrderingEnum | src/graphql/createConnectionArgs.js:74-86 | the `users` enum is `ID`, `FIRST_NAME`, `LAST_NAME`, valued `id`, `first_name`, `last_name` |
| Scenarios.UsersArgumentKeys | src/graphql/createConnectionArgs.js:6-63 | `users` gets the seven fixed arguments, then the filters `id`, `firstName` and `lastName` |
| Scenarios.UsersOrderByDefault | src/graphql/createConnectionArgs.js:16-20 | `orderBy` on `users` defaults to `"id"` |
| Scenarios.UsersFirstNameFilter | src/graphql/createConnectionArgs.js:56-61 | the non-null `first_name` column gets a filter typed by the nullable string, with no default |
| Scenarios.UsersIgnoringFirstName | src/graphql/createConnectionArgs.js:53-62 | ignoring `first_name` leaves the filters `id` and `lastName`, and the enum still has `FIRST_NAME` |
| Scenarios.ContactsOrderByDefault | src/graphql/createConnectionArgs.js:16-20 | a table without a primary key gets a `null` default for `orderBy` |
| Scenarios.ContactsOrderingEnum | src/graphql/createConnectionArgs.js:79-85 | the `contacts` enum is `EMAIL`, `CREATED_AT`, valued `email`, `created_at` |

## Left out

- Descriptions are modelled as tags (`Doc`) rather than prose. Each fixed argument's tag names the argument, and each filter's tag carries the column's markdown field name. The enum's description (line 77) is not modelled.
- The GraphQL types (`GraphQLInt`, `GraphQLBoolean`, `CursorType`, `GraphQLEnumType`) are opaque tokens. An enum instance is an id into the memo's store. `getColumnType` (src/graphql/getColumnType.js) is not part of this model: its result is a field of the column.
- A JavaScript object lists integer-like keys before the others, and a `__proto__` key does not create a property. The model keeps every key in insertion order, which is right for the non-numeric field names this code sees.
- SnakeCase.EnumKey: models lodash `snakeCase` on ASCII letters, digits and separators only. Unicode letters, ordinal suffixes (`1st`), apostrophes and the other lodash word rules are not modelled.
- SnakeCase.Words: the contracts say which characters the words hold and in what order (`WordsSpellWordChars`), but not where each word ends. The break rules are in `WordEnd`'s body only, and the `Scenarios` lemmas check concrete splits.
- The memo is sequential. JavaScript runs it on one thread, so there is no concurrency to model. The cache is never cleared.
- A column's `description` may be `undefined` in JavaScript. The model uses a string.
- A primary-key column is always a truthy object, so the `if (column)` test on line 18 is modelled as "the primary-key list is non-empty".
