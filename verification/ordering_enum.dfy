/**
 The ordering enum of a table and the per-table memo that hands it out.
 The enum lists every column of the table, keyed by the upper snake case of
 the column's field name; the memo builds it once per table identity and
 returns that same instance on every later call for the same table.
 */
module OrderingEnums {
  import opened Assoc
  import opened Schema
  import SnakeCase

  /** One member's payload: the value it stands for and its description. */
  datatype EnumValue = EnumValue(value: string, description: string)

  /** An enum instance: its type name and its members, as an ordered object. */
  datatype OrderingEnum = OrderingEnum(name: string, values: Entries<EnumValue>)

  /** The member a column contributes: its key, and its storage name and description. */
  function MemberPair(c: Column): (p: (string, EnumValue))
    ensures forall ch :: ch in p.0 ==> SnakeCase.IsKeyChar(ch) || ch == '_'
    ensures p.0 != [] ==> p.0[0] != '_' && p.0[|p.0| - 1] != '_'
    ensures p.1.value == c.name
  {
    (SnakeCase.EnumKey(c.fieldName), EnumValue(c.name, c.description))
  }

  function MemberPairs(cols: seq<Column>): (ps: seq<(string, EnumValue)>)
    ensures |ps| == |cols|
    ensures forall i :: 0 <= i < |cols| ==> ps[i] == MemberPair(cols[i])
  {
    if cols == [] then [] else [MemberPair(cols[0])] + MemberPairs(cols[1..])
  }

  /**
   The enum of a table, built from all of its columns in order; when two
   columns give the same key the later one's payload is kept.
   */
  function BuildOrderingEnum(t: Table): (e: OrderingEnum)
    ensures e.name == t.typeName + "Ordering"
    ensures KeysUnique(e.values)
    ensures |e.values| <= |t.columns|
  {
    OrderingEnum(t.typeName + "Ordering", FromPairs(MemberPairs(t.columns)))
  }

  /** Every column of the table has a member, whether or not it is filtered on anywhere. */
  lemma EveryColumnIsAMember(t: Table, c: Column)
    requires c in t.columns
    ensures SnakeCase.EnumKey(c.fieldName) in Keys(BuildOrderingEnum(t).values)
  {
    var ps := MemberPairs(t.columns);
    var i :| 0 <= i < |t.columns| && t.columns[i] == c;
    assert Keys(ps)[i] == SnakeCase.EnumKey(c.fieldName);
    AssignAllKeys([], ps);
  }

  /** The member keys are exactly the keys of the table's columns. */
  lemma MemberKeysAreColumnKeys(t: Table, k: string)
    ensures k in Keys(BuildOrderingEnum(t).values) <==>
            exists c :: c in t.columns && SnakeCase.EnumKey(c.fieldName) == k
  {
    var ps := MemberPairs(t.columns);
    assert Keys(BuildOrderingEnum(t).values) == FreshKeys([], Keys(ps));
    MemberPairKeys(t.columns, k);
  }

  /** The member-pair keys are exactly the keys of the columns. */
  lemma MemberPairKeys(cols: seq<Column>, k: string)
    ensures k in Keys(MemberPairs(cols)) <==> exists c :: c in cols && SnakeCase.EnumKey(c.fieldName) == k
  {
    var ks := Keys(MemberPairs(cols));
    if k in ks {
      var i :| 0 <= i < |ks| && ks[i] == k;
      assert cols[i] in cols;
    }
    if c :| c in cols && SnakeCase.EnumKey(c.fieldName) == k {
      var i :| 0 <= i < |cols| && cols[i] == c;
      assert ks[i] == k;
    }
  }

  /** Column `i` is the last column whose field name gives key `k`. */
  predicate IsLastColumnWithKey(cols: seq<Column>, k: string, i: int) {
    && 0 <= i < |cols|
    && SnakeCase.EnumKey(cols[i].fieldName) == k
    && forall j :: i < j < |cols| ==> SnakeCase.EnumKey(cols[j].fieldName) != k
  }

  /** The last member pair with key `k` is the pair of the last column with that key, which is returned. */
  lemma LastMemberPair(cols: seq<Column>, k: string) returns (i: nat)
    requires k in Keys(MemberPairs(cols))
    ensures IsLastColumnWithKey(cols, k, i)
    ensures LastValue(MemberPairs(cols), k) == Some(EnumValue(cols[i].name, cols[i].description))
  {
    var ps := MemberPairs(cols);
    LastValueIsLast(ps, k);
    i :| 0 <= i < |ps| && ps[i] == (k, LastValue(ps, k).value) &&
         forall j :: i < j < |ps| ==> ps[j].0 != k;
    assert ps[i] == MemberPair(cols[i]);
    forall j | i < j < |cols| ensures SnakeCase.EnumKey(cols[j].fieldName) != k {
      assert ps[j] == MemberPair(cols[j]);
    }
  }

  /**
   The member under a key carries the storage name and description of the
   last column with that key.
   */
  lemma MemberIsLastColumnWithKey(t: Table, k: string)
    requires k in Keys(BuildOrderingEnum(t).values)
    ensures exists i :: IsLastColumnWithKey(t.columns, k, i) &&
              Get(BuildOrderingEnum(t).values, k) == Some(EnumValue(t.columns[i].name, t.columns[i].description))
  {
    var ps := MemberPairs(t.columns);
    assert BuildOrderingEnum(t).values == AssignAll([], ps);
    AssignAllKeys([], ps);
    AssignAllGet([], ps, k);
    var i := LastMemberPair(t.columns, k);
  }

  /** When no two columns share a key, there is one member per column, in column order. */
  lemma DistinctKeysGiveOneMemberPerColumn(t: Table)
    requires forall i, j :: 0 <= i < j < |t.columns| ==>
               SnakeCase.EnumKey(t.columns[i].fieldName) != SnakeCase.EnumKey(t.columns[j].fieldName)
    ensures |BuildOrderingEnum(t).values| == |t.columns|
    ensures forall i :: 0 <= i < |t.columns| ==> BuildOrderingEnum(t).values[i] == MemberPair(t.columns[i])
  {
    var ps := MemberPairs(t.columns);
    assert Distinct(Keys(ps)) by {
      forall i, j | 0 <= i < j < |ps| ensures Keys(ps)[i] != Keys(ps)[j] {
        assert Keys(ps)[i] == SnakeCase.EnumKey(t.columns[i].fieldName);
        assert Keys(ps)[j] == SnakeCase.EnumKey(t.columns[j].fieldName);
      }
    }
    FromPairsOfDistinct(ps);
  }

  /**
   The memo's state: the enum id cached per table identity, every enum
   instance built so far, and the next unused enum id.
   */
  datatype MemoState = MemoState(cache: map<TableId, EnumId>, enums: map<EnumId, OrderingEnum>, nextId: EnumId)

  const EmptyMemo := MemoState(map[], map[], 0)

  /**
   Every instance belongs to exactly one cached table, no two tables share an
   instance, and every id in use is below the next fresh id.
   */
  ghost predicate MemoValid(s: MemoState) {
    && s.enums.Keys == s.cache.Values
    && (forall e :: e in s.enums ==> e < s.nextId)
    && (forall t1, t2 :: t1 in s.cache && t2 in s.cache && t1 != t2 ==> s.cache[t1] != s.cache[t2])
  }

  /**
   One call of the memoised factory: a table already cached gets its cached
   instance and nothing changes; any other table gets a newly built instance
   under a fresh id, recorded for its identity.
   */
  function GetOrBuild(s: MemoState, t: Table): (r: (MemoState, EnumId))
    ensures t.id in r.0.cache && r.0.cache[t.id] == r.1
    ensures t.id in s.cache ==> r.0 == s
    ensures t.id !in s.cache ==>
              && r.1 == s.nextId
              && r.0.cache == s.cache[t.id := r.1]
              && r.0.enums == s.enums[r.1 := BuildOrderingEnum(t)]
              && r.0.nextId == s.nextId + 1
  {
    if t.id in s.cache then (s, s.cache[t.id])
    else
      var e := s.nextId;
      (MemoState(s.cache[t.id := e], s.enums[e := BuildOrderingEnum(t)], e + 1), e)
  }

  /**
   A call keeps the memo valid, and an instance it builds is new: different
   from every instance built before and from every cached one.
   */
  lemma GetOrBuildKeepsMemoValid(s: MemoState, t: Table)
    requires MemoValid(s)
    ensures MemoValid(GetOrBuild(s, t).0)
    ensures GetOrBuild(s, t).1 in GetOrBuild(s, t).0.enums
    ensures t.id !in s.cache ==> GetOrBuild(s, t).1 !in s.enums && GetOrBuild(s, t).1 !in s.cache.Values
  {
    if t.id !in s.cache {
      var (s', e) := GetOrBuild(s, t);
      assert e !in s.cache.Values;
      assert s'.cache.Values == s.cache.Values + {e} by {
        forall v | v in s'.cache.Values ensures v in s.cache.Values + {e} {
          var t' :| t' in s'.cache && s'.cache[t'] == v;
          if t' != t.id {
            assert s.cache[t'] == v;
          }
        }
        forall v | v in s.cache.Values ensures v in s'.cache.Values {
          var t' :| t' in s.cache && s.cache[t'] == v;
          assert s'.cache[t'] == v;
        }
        assert s'.cache[t.id] == e;
      }
    }
  }

  /** A sequence of calls, each on the state the previous one left; the ids they return. */
  function Calls(s: MemoState, ts: seq<Table>): (r: (MemoState, seq<EnumId>))
    ensures |r.1| == |ts|
    decreases |ts|
  {
    if ts == [] then (s, [])
    else
      var first := GetOrBuild(s, ts[0]);
      var later := Calls(first.0, ts[1..]);
      (later.0, [first.1] + later.1)
  }

  /** A non-empty sequence of calls is its first call followed by the rest. */
  lemma CallsUnfold(s: MemoState, ts: seq<Table>)
    requires ts != []
    ensures Calls(s, ts).0 == Calls(GetOrBuild(s, ts[0]).0, ts[1..]).0
    ensures Calls(s, ts).1 == [GetOrBuild(s, ts[0]).1] + Calls(GetOrBuild(s, ts[0]).0, ts[1..]).1
  {
  }

  /** Across a sequence of calls the memo keeps every earlier entry. */
  lemma {:induction false} CallsKeepEntries(s: MemoState, ts: seq<Table>)
    ensures forall t :: t in s.cache ==> t in Calls(s, ts).0.cache && Calls(s, ts).0.cache[t] == s.cache[t]
    decreases |ts|
  {
    if ts != [] {
      CallsKeepEntries(GetOrBuild(s, ts[0]).0, ts[1..]);
      CallsUnfold(s, ts);
    }
  }

  /** Across a sequence of calls the memo stays valid. */
  lemma {:induction false} CallsKeepMemoValid(s: MemoState, ts: seq<Table>)
    requires MemoValid(s)
    ensures MemoValid(Calls(s, ts).0)
    decreases |ts|
  {
    if ts != [] {
      GetOrBuildKeepsMemoValid(s, ts[0]);
      CallsKeepMemoValid(GetOrBuild(s, ts[0]).0, ts[1..]);
      CallsUnfold(s, ts);
    }
  }

  /** The id each call in a sequence returned is the one cached for its table at the end. */
  lemma CallsAgreeWithCache(s: MemoState, ts: seq<Table>)
    ensures forall i :: 0 <= i < |ts| ==>
              ts[i].id in Calls(s, ts).0.cache && Calls(s, ts).0.cache[ts[i].id] == Calls(s, ts).1[i]
  {
    forall i | 0 <= i < |ts|
      ensures ts[i].id in Calls(s, ts).0.cache && Calls(s, ts).0.cache[ts[i].id] == Calls(s, ts).1[i]
    {
      CallAgreesWithCache(s, ts, i);
    }
  }

  /** Call `i` of a sequence returned the id cached for its table at the end. */
  lemma {:induction false} CallAgreesWithCache(s: MemoState, ts: seq<Table>, i: nat)
    requires i < |ts|
    ensures ts[i].id in Calls(s, ts).0.cache && Calls(s, ts).0.cache[ts[i].id] == Calls(s, ts).1[i]
    decreases i
  {
    var first := GetOrBuild(s, ts[0]);
    var later := Calls(first.0, ts[1..]);
    CallsUnfold(s, ts);
    if i == 0 {
      CallsKeepEntries(first.0, ts[1..]);
      assert ts[0].id in first.0.cache && first.0.cache[ts[0].id] == first.1;
    } else {
      CallAgreesWithCache(first.0, ts[1..], i - 1);
      assert ts[1..][i - 1] == ts[i];
    }
  }

  /**
   Memoisation by identity: two calls in a sequence return the same enum
   instance exactly when they are made with the same table.
   */
  lemma SameTableSameInstance(s: MemoState, ts: seq<Table>, i: nat, j: nat)
    requires MemoValid(s)
    requires i < |ts| && j < |ts|
    ensures Calls(s, ts).1[i] == Calls(s, ts).1[j] <==> ts[i].id == ts[j].id
  {
    CallsKeepMemoValid(s, ts);
    CallsAgreeWithCache(s, ts);
  }

  /** `ts[first]` is the first table in `ts` with the identity of `ts[i]`. */
  predicate IsFirstCallFor(ts: seq<Table>, i: nat, first: nat) {
    && first <= i < |ts|
    && ts[first].id == ts[i].id
    && forall p :: 0 <= p < first ==> ts[p].id != ts[i].id
  }

  /** Dropping the first call keeps the later first call for a table first. */
  lemma ShiftFirstCall(ts: seq<Table>, i: nat, first: nat)
    requires IsFirstCallFor(ts, i, first) && first > 0
    ensures IsFirstCallFor(ts[1..], i - 1, first - 1)
    ensures ts[1..][first - 1] == ts[first] && ts[0].id != ts[first].id
  {
    forall p | 0 <= p < first - 1 ensures ts[1..][p].id != ts[1..][i - 1].id {
      assert ts[1..][p] == ts[p + 1];
    }
  }

  /**
   The instance a call returns is the enum built from the first table in the
   sequence with the same identity, when that table was not cached before:
   later calls do not rebuild it.
   */
  lemma {:induction false} InstanceIsBuiltOnFirstCall(s: MemoState, ts: seq<Table>, i: nat, first: nat)
    requires MemoValid(s)
    requires IsFirstCallFor(ts, i, first) && ts[first].id !in s.cache
    ensures Calls(s, ts).1[i] in Calls(s, ts).0.enums
    ensures Calls(s, ts).0.enums[Calls(s, ts).1[i]] == BuildOrderingEnum(ts[first])
    decreases |ts|
  {
    if first == 0 {
      FirstCallBuilds(s, ts, i);
    } else {
      var step := GetOrBuild(s, ts[0]);
      GetOrBuildKeepsMemoValid(s, ts[0]);
      ShiftFirstCall(ts, i, first);
      assert ts[first].id !in step.0.cache;
      InstanceIsBuiltOnFirstCall(step.0, ts[1..], i - 1, first - 1);
      var later := Calls(step.0, ts[1..]);
      var e := later.1[i - 1];
      CallsUnfold(s, ts);
      assert Calls(s, ts).1[i] == e && Calls(s, ts).0 == later.0;
    }
  }

  /** The instance the first call builds for a new table is the one every later call for that table returns. */
  lemma FirstCallBuilds(s: MemoState, ts: seq<Table>, i: nat)
    requires MemoValid(s)
    requires i < |ts| && ts[0].id == ts[i].id && ts[0].id !in s.cache
    ensures Calls(s, ts).1[i] in Calls(s, ts).0.enums
    ensures Calls(s, ts).0.enums[Calls(s, ts).1[i]] == BuildOrderingEnum(ts[0])
  {
    var step := GetOrBuild(s, ts[0]);
    GetOrBuildKeepsMemoValid(s, ts[0]);
    CallsUnfold(s, ts);
    CallsAgreeWithCache(s, ts);
    EnumsKept(step.0, ts[1..], step.1);
    var r := Calls(s, ts);
    assert r.1[0] == step.1;
    assert r.1[i] == r.0.cache[ts[i].id] == r.0.cache[ts[0].id] == r.1[0];
  }

  /** A built instance is never replaced by later calls. */
  lemma {:induction false} EnumsKept(s: MemoState, ts: seq<Table>, e: EnumId)
    requires MemoValid(s) && e in s.enums
    ensures e in Calls(s, ts).0.enums && Calls(s, ts).0.enums[e] == s.enums[e]
    decreases |ts|
  {
    if ts != [] {
      var step := GetOrBuild(s, ts[0]);
      GetOrBuildKeepsMemoValid(s, ts[0]);
      EnumsKept(step.0, ts[1..], e);
    }
  }

  /**
   lodash `memoize` around the enum constructor, keyed by the table object:
   the cache map it keeps, the instances it has built, and the counter that
   gives each new instance its identity.
   */
  class OrderingEnumFactory {
    var cache: map<TableId, EnumId>
    var enums: map<EnumId, OrderingEnum>
    var nextId: EnumId

    function State(): MemoState
      reads this
    {
      MemoState(cache, enums, nextId)
    }

    ghost predicate Valid()
      reads this
    {
      MemoValid(State())
    }

    constructor ()
      ensures Valid() && State() == EmptyMemo
    {
      cache := map[];
      enums := map[];
      nextId := 0;
    }

    /** The enum for table `t`: the cached instance, or a new one recorded for `t`. */
    method Get(t: Table) returns (e: EnumId)
      requires Valid()
      modifies this
      ensures Valid()
      ensures (State(), e) == GetOrBuild(old(State()), t)
      ensures old(t.id in cache) ==> e == old(cache[t.id]) && unchanged(this)
      ensures old(t.id !in cache) ==> e !in old(enums) && e in enums && enums[e] == BuildOrderingEnum(t)
    {
      ghost var before := State();
      GetOrBuildKeepsMemoValid(before, t);
      if t.id in cache {
        e := cache[t.id];
        assert GetOrBuild(before, t) == (before, e);
      } else {
        e := nextId;
        var built := BuildOrderingEnum(t);
        cache := cache[t.id := e];
        enums := enums[e := built];
        nextId := nextId + 1;
        ghost var r := GetOrBuild(before, t);
        assert r.0.cache == cache && r.0.enums == enums && r.0.nextId == nextId && r.1 == e;
        assert r.0 == State();
      }
    }
  }
}
