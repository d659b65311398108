/**
 The arguments of a paginated connection over one table: seven fixed
 arguments (orderBy, first, last, before, after, offset, descending) followed
 by one equality filter per column that is not ignored, keyed by the column's
 field name. The result is an object built by a literal with a spread, so
 its keys keep insertion order and a later filter with the same key replaces
 an earlier entry where it stands.
 */
module ConnectionArgs {
  import opened Assoc
  import opened Schema
  import opened OrderingEnums
  import SnakeCase

  /** An argument's default: absent, `null`, a string or a boolean. */
  datatype DefaultValue = NoDefault | NullDefault | StringDefault(s: string) | BoolDefault(b: bool)

  /** Which description an argument carries; the wording itself is not modelled. */
  datatype Doc = ArgumentDoc(argument: string) | EqualityFilterDoc(markdownFieldName: string)

  /** One argument: its type, its description and its default value. */
  datatype ArgSpec = ArgSpec(argType: SchemaType, description: Doc, defaultValue: DefaultValue)

  const FixedKeys: seq<string> := ["orderBy", "first", "last", "before", "after", "offset", "descending"]

  /** The name of the table's first primary-key column, or `null` when it has none. */
  function OrderByDefault(t: Table): (d: DefaultValue)
    ensures d != NoDefault
    ensures d.StringDefault? <==> |t.primaryKeyColumns| > 0
    ensures d.StringDefault? ==> d.s == t.primaryKeyColumns[0].name
    ensures |t.primaryKeyColumns| == 0 ==> d == NullDefault
  {
    if |t.primaryKeyColumns| > 0 then StringDefault(t.primaryKeyColumns[0].name) else NullDefault
  }

  /** The seven fixed arguments, in the order the object literal writes them. */
  function FixedArgs(t: Table, ordering: EnumId): (r: Entries<ArgSpec>)
    ensures Keys(r) == FixedKeys
    ensures r[0].1.argType == OrderingEnumType(ordering)
    ensures forall i :: 1 <= i < 6 ==> r[i].1.defaultValue == NoDefault
  {
    [ ("orderBy", ArgSpec(OrderingEnumType(ordering), ArgumentDoc("orderBy"), OrderByDefault(t))),
      ("first", ArgSpec(IntType, ArgumentDoc("first"), NoDefault)),
      ("last", ArgSpec(IntType, ArgumentDoc("last"), NoDefault)),
      ("before", ArgSpec(CursorType, ArgumentDoc("before"), NoDefault)),
      ("after", ArgSpec(CursorType, ArgumentDoc("after"), NoDefault)),
      ("offset", ArgSpec(IntType, ArgumentDoc("offset"), NoDefault)),
      ("descending", ArgSpec(BooleanType, ArgumentDoc("descending"), BoolDefault(false))) ]
  }

  /** The fixed arguments are written under the seven fixed keys, none twice. */
  lemma FixedArgsKeys(t: Table, ordering: EnumId)
    ensures KeysUnique(FixedArgs(t, ordering))
  {
    assert Distinct(FixedKeys) by {
      forall i, j | 0 <= i < j < 7 ensures FixedKeys[i] != FixedKeys[j] {
        assert FixedKeys[i][0] != FixedKeys[j][0] || FixedKeys[i][1] != FixedKeys[j][1];
      }
    }
  }

  /** lodash `includes` on a list of columns: the same column object is in the list. */
  predicate IsIgnored(ignore: seq<Column>, c: Column)
    ensures c in ignore ==> IsIgnored(ignore, c)
    ensures ignore == [] ==> !IsIgnored(ignore, c)
  {
    exists i :: 0 <= i < |ignore| && ignore[i].id == c.id
  }

  /** The columns not in the ignore list, in table order. */
  function FilterColumns(cols: seq<Column>, ignore: seq<Column>): (r: seq<Column>)
    ensures forall c :: c in r <==> c in cols && !IsIgnored(ignore, c)
    ensures |r| <= |cols|
  {
    if cols == [] then []
    else if IsIgnored(ignore, cols[0]) then FilterColumns(cols[1..], ignore)
    else [cols[0]] + FilterColumns(cols[1..], ignore)
  }

  /** The equality filter on a column: its nullable type, no default. */
  function FilterArg(c: Column): (a: ArgSpec)
    ensures a.defaultValue == NoDefault
    ensures a.argType == c.columnType || c.columnType == NonNullType(a.argType)
    ensures WellFormedType(c.columnType) ==> !a.argType.NonNullType?
  {
    ArgSpec(GetNullableType(c.columnType), EqualityFilterDoc(c.markdownFieldName), NoDefault)
  }

  function FilterPairs(cols: seq<Column>): (ps: seq<(string, ArgSpec)>)
    ensures |ps| == |cols|
    ensures forall i :: 0 <= i < |cols| ==> ps[i] == (cols[i].fieldName, FilterArg(cols[i]))
  {
    if cols == [] then [] else [(cols[0].fieldName, FilterArg(cols[0]))] + FilterPairs(cols[1..])
  }

  /** The field names the filters are keyed by, one per non-ignored column, in table order. */
  function FilterKeys(t: Table, ignore: seq<Column>): seq<string> {
    Keys(FilterPairs(FilterColumns(t.columns, ignore)))
  }

  /**
   `createConnectionArgs(table, ignoreColumnConditions)`, given the identity
   of the table's ordering enum: the fixed arguments with the object of
   filters spread over them.
   */
  function Arguments(t: Table, ordering: EnumId, ignore: seq<Column> := []): (r: Entries<ArgSpec>)
    ensures |FixedKeys| <= |r| <= |FixedKeys| + |t.columns|
    ensures Keys(r)[..|FixedKeys|] == FixedKeys
  {
    var fixed := FixedArgs(t, ordering);
    var filters := FromPairs(FilterPairs(FilterColumns(t.columns, ignore)));
    AssignAllKeys(fixed, filters);
    assert (FixedKeys + FreshKeys(FixedKeys, Keys(filters)))[..|FixedKeys|] == FixedKeys;
    AssignAll(fixed, filters)
  }

  /** Some column that is not ignored has field name `k`. */
  predicate IsFilterKey(t: Table, ignore: seq<Column>, k: string) {
    exists c :: c in t.columns && !IsIgnored(ignore, c) && c.fieldName == k
  }

  lemma FilterKeysAreFieldNames(t: Table, ignore: seq<Column>, k: string)
    ensures k in FilterKeys(t, ignore) <==> IsFilterKey(t, ignore, k)
  {
    var cs := FilterColumns(t.columns, ignore);
    var ps := FilterPairs(cs);
    if k in Keys(ps) {
      var i :| 0 <= i < |ps| && Keys(ps)[i] == k;
      assert cs[i] in cs;
    }
    if IsFilterKey(t, ignore, k) {
      var c :| c in t.columns && !IsIgnored(ignore, c) && c.fieldName == k;
      var i :| 0 <= i < |cs| && cs[i] == c;
      assert Keys(ps)[i] == k;
    }
  }

  /** Filtering keeps the table's column order: it distributes over concatenation. */
  lemma {:induction false} FilterColumnsKeepsOrder(a: seq<Column>, b: seq<Column>, ignore: seq<Column>)
    ensures FilterColumns(a + b, ignore) == FilterColumns(a, ignore) + FilterColumns(b, ignore)
    decreases |a|
  {
    if a != [] {
      assert (a + b)[1..] == a[1..] + b;
      FilterColumnsKeepsOrder(a[1..], b, ignore);
    } else {
      assert a + b == b;
    }
  }

  /**
   Key order: the seven fixed keys first, in their fixed order, then each
   filter key that is not already a fixed key, in the order of its first
   column; no key occurs twice.
   */
  lemma ArgumentKeyOrder(t: Table, ordering: EnumId, ignore: seq<Column>)
    ensures KeysUnique(Arguments(t, ordering, ignore))
    ensures Keys(Arguments(t, ordering, ignore)) == FixedKeys + FreshKeys(FixedKeys, FilterKeys(t, ignore))
  {
    var fixed := FixedArgs(t, ordering);
    var ps := FilterPairs(FilterColumns(t.columns, ignore));
    FixedArgsKeys(t, ordering);
    SpreadOfFromPairs(fixed, ps);
    AssignAllKeys(fixed, ps);
    AssignAllKeepsKeysUnique(fixed, ps);
  }

  /** The arguments are exactly the fixed ones and one per field name of a column that is not ignored. */
  lemma ArgumentKeySet(t: Table, ordering: EnumId, ignore: seq<Column>, k: string)
    ensures k in Keys(Arguments(t, ordering, ignore)) <==> k in FixedKeys || IsFilterKey(t, ignore, k)
  {
    ArgumentKeyOrder(t, ordering, ignore);
    FilterKeysAreFieldNames(t, ignore, k);
  }

  /** A read of an argument: the filter written last under that key, or else the fixed argument. */
  lemma ArgumentValue(t: Table, ordering: EnumId, ignore: seq<Column>, k: string)
    ensures Get(Arguments(t, ordering, ignore), k) ==
            if k in FilterKeys(t, ignore) then LastValue(FilterPairs(FilterColumns(t.columns, ignore)), k)
            else Get(FixedArgs(t, ordering), k)
  {
    var fixed := FixedArgs(t, ordering);
    var ps := FilterPairs(FilterColumns(t.columns, ignore));
    FixedArgsKeys(t, ordering);
    SpreadOfFromPairs(fixed, ps);
    assert Arguments(t, ordering, ignore) == AssignAll(fixed, ps);
    AssignAllGet(fixed, ps, k);
  }

  /** Column `i` is the last column that is not ignored and has field name `k`. */
  predicate IsLastFilterColumn(cols: seq<Column>, ignore: seq<Column>, k: string, i: int) {
    && 0 <= i < |cols|
    && cols[i].fieldName == k
    && !IsIgnored(ignore, cols[i])
    && forall j :: i < j < |cols| && !IsIgnored(ignore, cols[j]) ==> cols[j].fieldName != k
  }

  /**
   The filter written last under field name `k` comes from the last column
   that is not ignored and has that field name; that column is returned.
   */
  lemma {:induction false} LastFilterColumn(cols: seq<Column>, ignore: seq<Column>, k: string) returns (i: nat)
    requires k in Keys(FilterPairs(FilterColumns(cols, ignore)))
    ensures IsLastFilterColumn(cols, ignore, k, i)
    ensures LastValue(FilterPairs(FilterColumns(cols, ignore)), k) == Some(FilterArg(cols[i]))
    decreases |cols|
  {
    var rest := cols[1..];
    var ps := FilterPairs(FilterColumns(cols, ignore));
    var restPs := FilterPairs(FilterColumns(rest, ignore));
    if IsIgnored(ignore, cols[0]) {
      assert ps == restPs;
      var i' := LastFilterColumn(rest, ignore, k);
      ShiftLastColumn(cols, ignore, k, i');
      i := i' + 1;
    } else {
      assert ps == [(cols[0].fieldName, FilterArg(cols[0]))] + restPs;
      assert ps[1..] == restPs;
      if k in Keys(restPs) {
        var i' := LastFilterColumn(rest, ignore, k);
        ShiftLastColumn(cols, ignore, k, i');
        i := i' + 1;
      } else {
        assert LastValue(ps, k) == Some(FilterArg(cols[0]));
        NoLaterFilterColumn(cols, ignore, k);
        i := 0;
      }
    }
  }

  /** When no column after the first gives a filter named `k`, the first column is the last one named `k`. */
  lemma NoLaterFilterColumn(cols: seq<Column>, ignore: seq<Column>, k: string)
    requires cols != [] && cols[0].fieldName == k && !IsIgnored(ignore, cols[0])
    requires k !in Keys(FilterPairs(FilterColumns(cols[1..], ignore)))
    ensures IsLastFilterColumn(cols, ignore, k, 0)
  {
    var cs := FilterColumns(cols[1..], ignore);
    forall j | 0 < j < |cols| && !IsIgnored(ignore, cols[j]) ensures cols[j].fieldName != k {
      assert cols[j] == cols[1..][j - 1];
      assert cols[j] in cs;
      var p :| 0 <= p < |cs| && cs[p] == cols[j];
      assert Keys(FilterPairs(cs))[p] == cols[j].fieldName;
    }
  }

  /** The step of `LastFilterColumn` that moves the last column from `cols[1..]` to `cols`. */
  lemma ShiftLastColumn(cols: seq<Column>, ignore: seq<Column>, k: string, i: nat)
    requires cols != [] && IsLastFilterColumn(cols[1..], ignore, k, i)
    ensures IsLastFilterColumn(cols, ignore, k, i + 1)
    ensures cols[i + 1] == cols[1..][i]
  {
    forall j | i + 1 < j < |cols| && !IsIgnored(ignore, cols[j]) ensures cols[j].fieldName != k {
      assert cols[j] == cols[1..][j - 1];
    }
  }

  /**
   Every filter argument is the filter of the last column, in table order,
   that is not ignored and has that field name; this holds also when the
   field name is one of the fixed keys, whose entry it then replaces.
   */
  lemma FilterArgumentIsLastColumn(t: Table, ordering: EnumId, ignore: seq<Column>, k: string)
    requires IsFilterKey(t, ignore, k)
    ensures exists i :: IsLastFilterColumn(t.columns, ignore, k, i) &&
              Get(Arguments(t, ordering, ignore), k) == Some(FilterArg(t.columns[i]))
  {
    FilterKeysAreFieldNames(t, ignore, k);
    ArgumentValue(t, ordering, ignore, k);
    var i := LastFilterColumn(t.columns, ignore, k);
  }

  /** A fixed argument that no filter key collides with keeps its fixed value. */
  lemma FixedArgumentKept(t: Table, ordering: EnumId, ignore: seq<Column>, k: string)
    requires !IsFilterKey(t, ignore, k)
    ensures Get(Arguments(t, ordering, ignore), k) == Get(FixedArgs(t, ordering), k)
  {
    FilterKeysAreFieldNames(t, ignore, k);
    ArgumentValue(t, ordering, ignore, k);
  }

  /**
   `orderBy` is typed by the table's ordering enum and defaults to the name
   of the first primary-key column, or to `null` when there is no primary key.
   */
  lemma OrderByDefaultsToPrimaryKey(t: Table, ordering: EnumId, ignore: seq<Column>)
    requires !IsFilterKey(t, ignore, "orderBy")
    ensures Get(Arguments(t, ordering, ignore), "orderBy") ==
            Some(ArgSpec(OrderingEnumType(ordering), ArgumentDoc("orderBy"),
                         if |t.primaryKeyColumns| > 0 then StringDefault(t.primaryKeyColumns[0].name)
                         else NullDefault))
  {
    FixedArgumentKept(t, ordering, ignore, "orderBy");
  }

  /** `descending` is a boolean argument that defaults to false. */
  lemma DescendingDefaultsToFalse(t: Table, ordering: EnumId, ignore: seq<Column>)
    requires !IsFilterKey(t, ignore, "descending")
    ensures Get(Arguments(t, ordering, ignore), "descending") ==
            Some(ArgSpec(BooleanType, ArgumentDoc("descending"), BoolDefault(false)))
  {
    FixedArgumentKept(t, ordering, ignore, "descending");
    FixedArgAt(t, ordering, 6);
  }

  /**
   `first`, `last` and `offset` are integers and `before` and `after`
   cursors, none of them with a default.
   */
  lemma PageArgumentsHaveNoDefault(t: Table, ordering: EnumId, ignore: seq<Column>)
    requires !IsFilterKey(t, ignore, "first") && !IsFilterKey(t, ignore, "last")
    requires !IsFilterKey(t, ignore, "before") && !IsFilterKey(t, ignore, "after")
    requires !IsFilterKey(t, ignore, "offset")
    ensures Get(Arguments(t, ordering, ignore), "first") == Some(ArgSpec(IntType, ArgumentDoc("first"), NoDefault))
    ensures Get(Arguments(t, ordering, ignore), "last") == Some(ArgSpec(IntType, ArgumentDoc("last"), NoDefault))
    ensures Get(Arguments(t, ordering, ignore), "before") == Some(ArgSpec(CursorType, ArgumentDoc("before"), NoDefault))
    ensures Get(Arguments(t, ordering, ignore), "after") == Some(ArgSpec(CursorType, ArgumentDoc("after"), NoDefault))
    ensures Get(Arguments(t, ordering, ignore), "offset") == Some(ArgSpec(IntType, ArgumentDoc("offset"), NoDefault))
  {
    FixedArgumentKept(t, ordering, ignore, "first");
    FixedArgumentKept(t, ordering, ignore, "last");
    FixedArgumentKept(t, ordering, ignore, "before");
    FixedArgumentKept(t, ordering, ignore, "after");
    FixedArgumentKept(t, ordering, ignore, "offset");
    FixedArgAt(t, ordering, 1);
    FixedArgAt(t, ordering, 2);
    FixedArgAt(t, ordering, 3);
    FixedArgAt(t, ordering, 4);
    FixedArgAt(t, ordering, 5);
  }

  lemma FixedArgAt(t: Table, ordering: EnumId, i: nat)
    requires i < 7
    ensures Get(FixedArgs(t, ordering), FixedKeys[i]) == Some(FixedArgs(t, ordering)[i].1)
  {
    FixedArgsKeys(t, ordering);
    GetAtIndex(FixedArgs(t, ordering), i);
  }

  /** A filter argument is always optional: its type is never non-null. */
  lemma FilterArgumentsAreNullable(t: Table, ordering: EnumId, ignore: seq<Column>, k: string)
    requires forall c :: c in t.columns ==> WellFormedType(c.columnType)
    requires IsFilterKey(t, ignore, k)
    ensures Get(Arguments(t, ordering, ignore), k).Some?
    ensures !Get(Arguments(t, ordering, ignore), k).value.argType.NonNullType?
    ensures Get(Arguments(t, ordering, ignore), k).value.defaultValue == NoDefault
  {
    FilterArgumentIsLastColumn(t, ordering, ignore, k);
    var i :| IsLastFilterColumn(t.columns, ignore, k, i) &&
             Get(Arguments(t, ordering, ignore), k) == Some(FilterArg(t.columns[i]));
    assert t.columns[i] in t.columns;
  }

  /** With the default, empty ignore list every column gets a filter argument. */
  lemma DefaultIgnoreListFiltersEveryColumn(t: Table, ordering: EnumId)
    ensures FilterColumns(t.columns, []) == t.columns
    ensures forall c :: c in t.columns ==> c.fieldName in Keys(Arguments(t, ordering))
  {
    NothingIgnored(t.columns);
    forall c | c in t.columns ensures c.fieldName in Keys(Arguments(t, ordering)) {
      ArgumentKeySet(t, ordering, [], c.fieldName);
    }
  }

  lemma {:induction false} NothingIgnored(cols: seq<Column>)
    ensures FilterColumns(cols, []) == cols
    decreases |cols|
  {
    if cols != [] {
      NothingIgnored(cols[1..]);
      assert [cols[0]] + cols[1..] == cols;
    }
  }

  /** Two ignore lists that agree on the table's columns give the same filters. */
  lemma {:induction false} FilterColumnsOnlySeesTableColumns(cols: seq<Column>, ignore1: seq<Column>, ignore2: seq<Column>)
    requires forall c :: c in cols ==> (IsIgnored(ignore1, c) <==> IsIgnored(ignore2, c))
    ensures FilterColumns(cols, ignore1) == FilterColumns(cols, ignore2)
    decreases |cols|
  {
    if cols != [] {
      assert cols[0] in cols;
      forall c | c in cols[1..] ensures IsIgnored(ignore1, c) <==> IsIgnored(ignore2, c) {
        assert c in cols;
      }
      FilterColumnsOnlySeesTableColumns(cols[1..], ignore1, ignore2);
    }
  }

  /** An ignore entry that is not a column of the table changes nothing. */
  lemma IgnoringForeignColumnsHasNoEffect(t: Table, ordering: EnumId, ignore: seq<Column>, foreign: seq<Column>)
    requires forall x, c :: x in foreign && c in t.columns ==> x.id != c.id
    ensures Arguments(t, ordering, ignore + foreign) == Arguments(t, ordering, ignore)
  {
    forall c | c in t.columns ensures IsIgnored(ignore + foreign, c) <==> IsIgnored(ignore, c) {
      if IsIgnored(ignore + foreign, c) {
        var i :| 0 <= i < |ignore + foreign| && (ignore + foreign)[i].id == c.id;
        if i >= |ignore| {
          assert false;
        } else {
          assert ignore[i] == (ignore + foreign)[i];
        }
      }
      if IsIgnored(ignore, c) {
        var i :| 0 <= i < |ignore| && ignore[i].id == c.id;
        assert (ignore + foreign)[i] == ignore[i];
      }
    }
    FilterColumnsOnlySeesTableColumns(t.columns, ignore + foreign, ignore);
  }

  /**
   Ordering and filtering are independent: an ignored column gets no filter
   argument (unless another column that is not ignored shares its field name,
   or the name is a fixed key), yet it stays a member of the ordering enum.
   */
  lemma IgnoredColumnStaysOrderable(t: Table, ordering: EnumId, ignore: seq<Column>, c: Column)
    requires c in t.columns && IsIgnored(ignore, c)
    requires c.fieldName !in FixedKeys && !IsFilterKey(t, ignore, c.fieldName)
    ensures c.fieldName !in Keys(Arguments(t, ordering, ignore))
    ensures SnakeCase.EnumKey(c.fieldName) in Keys(BuildOrderingEnum(t).values)
  {
    ArgumentKeySet(t, ordering, ignore, c.fieldName);
    EveryColumnIsAMember(t, c);
  }

  /**
   `createConnectionArgs` as the program runs it: asking the memoised factory
   for the table's ordering enum (building and caching it on the first call
   for this table), then assembling the arguments around it.
   */
  method CreateConnectionArgs(factory: OrderingEnumFactory, t: Table, ignore: seq<Column> := [])
    returns (args: Entries<ArgSpec>)
    requires factory.Valid()
    modifies factory
    ensures factory.Valid()
    ensures factory.State() == GetOrBuild(old(factory.State()), t).0
    ensures args == Arguments(t, factory.cache[t.id], ignore)
    ensures old(t.id in factory.cache) ==> args == Arguments(t, old(factory.cache[t.id]), ignore)
  {
    var ordering := factory.Get(t);
    args := Arguments(t, ordering, ignore);
  }
}
