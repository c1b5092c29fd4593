/** When the server really runs a chain: the table that it builds from an accepted configuration
    (model_read_configuration_ in pipeline/src/pipeline_server.c), for any ids. */
module ServerTable {
  import opened Basics
  import opened Children
  import opened ConfigCheck

  ghost predicate DistinctIds(modules: seq<Module>) {
    forall i, j :: 0 <= i < j < |modules| ==> modules[i].id != modules[j].id
  }

  /** Every place of the table was written. */
  ghost predicate Filled(modules: seq<Module>) {
    forall id :: 0 <= id < |modules| ==> LastWith(modules, id).Some?
  }

  ghost predicate IdsInTable(modules: seq<Module>) {
    forall i :: 0 <= i < |modules| ==> 0 <= modules[i].id < |modules|
  }

  /** The table that `Arrange` leaves. */
  ghost function Table(modules: seq<Module>): (t: seq<Module>)
    requires Filled(modules)
    ensures |t| == |modules| && forall id :: 0 <= id < |modules| ==> Some(t[id]) == LastWith(modules, id)
  {
    seq(|modules|, id requires 0 <= id < |modules| => LastWith(modules, id).value)
  }

  function NextsOf(table: seq<Module>): (s: seq<int>)
    ensures |s| == |table| && forall id :: 0 <= id < |table| ==> s[id] == table[id].next
  {
    seq(|table|, id requires 0 <= id < |table| => table[id].next)
  }

  /** The server's threads form a source, process stages and a finalization, linked along `q`. */
  ghost predicate RunsChain(modules: seq<Module>, q: seq<int>) {
    Filled(modules) && PipelineShape(Table(modules), q)
  }

  ghost predicate NoMinusOne(entries: seq<Entry>) {
    forall i :: 0 <= i < |entries| ==> entries[i].nextId != Some(-1)
  }

  ghost predicate ParsedFrom(entries: seq<Entry>, modules: seq<Module>) {
    |modules| == |entries| && forall i :: 0 <= i < |entries| ==> modules[i] == Parsed(entries[i])
  }

  // ----- pigeonholes -----

  lemma {:induction false} DistinctCount(p: seq<int>, s: set<int>)
    requires Distinct(p) && s == set x | x in p
    ensures |s| == |p|
  {
    if p != [] {
      var front, last := p[..|p| - 1], p[|p| - 1];
      var rest := set x | x in front;
      assert p == front + [last];
      assert last !in rest && s == rest + {last};
      DistinctCount(front, rest);
    }
  }

  ghost function Below(n: nat): (s: set<int>)
    ensures |s| == n && forall x :: x in s <==> 0 <= x < n
  {
    if n == 0 then {} else Below(n - 1) + {n - 1}
  }

  /** `n` different numbers below `n` are all of them. */
  lemma Pigeonhole(p: seq<int>, x: int)
    requires Distinct(p) && (forall k :: 0 <= k < |p| ==> 0 <= p[k] < |p|) && 0 <= x < |p|
    ensures x in p
  {
    var s := set y | y in p;
    DistinctCount(p, s);
    assert s <= Below(|p|);
    Smaller(s, Below(|p|) - {x});
  }

  lemma Smaller(a: set<int>, b: set<int>)
    ensures a <= b ==> |a| <= |b|
  {
    if a <= b {
      assert b == a + (b - a);
    }
  }

  // ----- the places of the table -----

  lemma {:induction false} Holder(modules: seq<Module>, id: int) returns (i: nat)
    requires LastWith(modules, id).Some?
    ensures i < |modules| && modules[i].id == id && LastWith(modules, id) == Some(modules[i])
  {
    if modules[|modules| - 1].id == id {
      i := |modules| - 1;
    } else {
      i := Holder(modules[..|modules| - 1], id);
    }
  }

  lemma {:induction false} Held(modules: seq<Module>, i: nat)
    requires i < |modules|
    ensures LastWith(modules, modules[i].id).Some?
  {
    if modules[|modules| - 1].id != modules[i].id {
      Held(modules[..|modules| - 1], i);
    }
  }

  /** Of several modules with one id the last one stays. */
  lemma {:induction false} LaterStays(modules: seq<Module>, i: nat)
    requires i < |modules| && forall j :: i < j < |modules| ==> modules[j].id != modules[i].id
    ensures LastWith(modules, modules[i].id) == Some(modules[i])
  {
    if i < |modules| - 1 {
      LaterStays(modules[..|modules| - 1], i);
    }
  }

  /** The table has no hole exactly when no two modules have the same id. */
  lemma FilledIff(modules: seq<Module>)
    requires IdsInTable(modules)
    ensures Filled(modules) <==> DistinctIds(modules)
  {
    hide LastWith;
    var n := |modules|;
    if DistinctIds(modules) {
      var ids := seq(n, i requires 0 <= i < n => modules[i].id);
      forall id | 0 <= id < n ensures LastWith(modules, id).Some? {
        Pigeonhole(ids, id);
        var i :| 0 <= i < n && ids[i] == id;
        Held(modules, i);
      }
    }
    if Filled(modules) {
      var holders := Holders(modules);
      forall i, j | 0 <= i < j < n ensures modules[i].id != modules[j].id {
        Pigeonhole(holders, i);
        Pigeonhole(holders, j);
      }
    }
  }

  /** Which module each place holds. */
  lemma Holders(modules: seq<Module>) returns (holders: seq<int>)
    requires Filled(modules)
    ensures |holders| == |modules| && Distinct(holders)
    ensures forall id :: 0 <= id < |modules| ==> 0 <= holders[id] < |modules| && modules[holders[id]].id == id
    ensures forall id :: 0 <= id < |modules| ==> Table(modules)[id] == modules[holders[id]]
  {
    hide LastWith;
    holders := [];
    for id := 0 to |modules|
      invariant |holders| == id
      invariant forall j :: 0 <= j < id ==> 0 <= holders[j] < |modules| && modules[holders[j]].id == j
      invariant forall j :: 0 <= j < id ==> Table(modules)[j] == modules[holders[j]]
    {
      var i := Holder(modules, id);
      holders := holders + [i];
    }
  }

  // ----- the entries in the order of their ids -----

  /** The entries as if they stood in the file in the order of their ids; then `Table` is what is parsed from them. */
  lemma Sorted(entries: seq<Entry>, modules: seq<Module>) returns (byId: seq<Entry>)
    requires ParsedFrom(entries, modules) && IdsInTable(modules) && Filled(modules)
    ensures ParsedFrom(byId, Table(modules))
    ensures forall e :: e in byId <==> e in entries
    ensures forall i :: 0 <= i < |entries| ==> byId[modules[i].id] == entries[i]
    ensures forall id :: 0 <= id < |byId| ==> byId[id].id == id
  {
    hide LastWith;
    FilledIff(modules);
    var holders := Holders(modules);
    var n := |modules|;
    byId := seq(n, id requires 0 <= id < n => entries[holders[id]]);
    assert forall id :: 0 <= id < n ==> byId[id].id == modules[holders[id]].id;
    forall i | 0 <= i < n ensures byId[modules[i].id] == entries[i] {
      assert holders[modules[i].id] == i;
    }
    forall e | e in entries ensures e in byId {
      var i :| 0 <= i < n && entries[i] == e;
      assert byId[modules[i].id] == e;
    }
  }

  lemma SortedGood(entries: seq<Entry>, f: nat, byId: seq<Entry>, g: nat)
    requires EndsAreLast(entries) && OnlyFirst(entries, f) && |byId| == |entries|
    requires forall e :: e in byId <==> e in entries
    requires forall id :: 0 <= id < |byId| ==> byId[id].id == id
    requires g < |byId| && byId[g] == entries[f]
    ensures EndsAreLast(byId) && OnlyFirst(byId, g)
    ensures NoMinusOne(byId) <==> NoMinusOne(entries)
  {
    forall id | 0 <= id < |byId|
      ensures byId[id].nextId == None <==> byId[id].kind == LAST
      ensures byId[id].kind == FIRST <==> id == g
    {
      assert byId[id] in entries;
      var i :| 0 <= i < |entries| && entries[i] == byId[id];
    }
    forall i | 0 <= i < |entries| ensures entries[i] in byId { }
    if NoMinusOne(byId) {
      forall i | 0 <= i < |entries| ensures entries[i].nextId != Some(-1) {
        assert entries[i] in byId;
      }
    }
    if NoMinusOne(entries) {
      forall id | 0 <= id < |byId| ensures byId[id].nextId != Some(-1) {
        assert byId[id] in entries;
      }
    }
  }

  // ----- the exact condition -----

  /** A pipeline shape is a tour of the whole table, from the FIRST module. */
  lemma ShapeIsTour(table: seq<Module>, q: seq<int>)
    requires PipelineShape(table, q)
    ensures Tour(NextsOf(table), NoneSeen(|table|), q[0], q) && table[q[0]].kind == FIRST
  {
    assert StageAt(table, q, 0);
    forall k | 0 <= k < |q| ensures NextsOf(table)[q[k]] == if k < |q| - 1 then q[k + 1] else -1 {
      assert StageAt(table, q, k);
    }
    assert StageAt(table, q, |q| - 1);
    forall i | 0 <= i < |table| ensures i in q {
      Pigeonhole(q, i);
    }
  }

  /** Conversely, whatever stands in the shape of a pipeline in the file is accepted, wherever its FIRST entry is. */
  lemma ShapeIsGood(entries: seq<Entry>, modules: seq<Module>, p: seq<int>)
    requires EndsAreLast(entries) && ParsedFrom(entries, modules) && PipelineShape(modules, p)
    ensures Good(entries, p[0], p)
  {
    ShapeIsTour(modules, p);
    assert NextsOf(modules) == Nexts(entries);
    forall i | 0 <= i < |entries| ensures entries[i].kind == FIRST <==> i == p[0] {
      Pigeonhole(p, i);
      var k :| 0 <= k < |p| && p[k] == i;
      assert StageAt(modules, p, k) && modules[i] == Parsed(entries[i]);
    }
  }

  /** Read off the file itself: the entries without "next_id" are the LAST ones, `f` is the FIRST one, and `p` lists all
      entries, each once, from `f` on along "next_id". */
  ghost predicate Chained(entries: seq<Entry>, f: nat, p: seq<int>) {
    var n := |entries|;
    && (forall i :: 0 <= i < n ==> (entries[i].nextId.None? <==> entries[i].kind.LAST?))
    && f < n && entries[f].kind.FIRST? && (forall i :: 0 <= i < n && entries[i].kind.FIRST? ==> i == f)
    && |p| == n && p[0] == f
    && (forall k :: 0 <= k < n ==> 0 <= p[k] < n)
    && (forall j, k :: 0 <= j < k < n ==> p[j] != p[k])
    && (forall k :: 0 <= k < n - 1 ==> entries[p[k]].nextId == Some(p[k + 1]))
    && (entries[p[n - 1]].nextId == None || entries[p[n - 1]].nextId == Some(-1))
  }

  /** A configuration is good exactly when it is such a chain. */
  lemma GoodIff(entries: seq<Entry>, f: nat, p: seq<int>)
    ensures Good(entries, f, p) <==> Chained(entries, f, p)
  {
    if Good(entries, f, p) {
      TourLength(Nexts(entries), NoneSeen(|entries|), f, p);
      NothingSeen(|entries|);
      forall k | 0 <= k < |p| - 1 ensures entries[p[k]].nextId == Some(p[k + 1]) {
        assert Nexts(entries)[p[k]] == p[k + 1] && 0 <= p[k + 1];
      }
      assert Nexts(entries)[p[|p| - 1]] == -1;
    }
    if Chained(entries, f, p) {
      forall i | 0 <= i < |entries| ensures i in p {
        Pigeonhole(p, i);
      }
      forall k | 0 <= k < |p| - 1 ensures Nexts(entries)[p[k]] == p[k + 1] {
        assert entries[p[k]].nextId == Some(p[k + 1]);
      }
    }
  }

  /** A table that was parsed from entries with one FIRST and with the right ends is a chain if and only if no entry has
      the number -1 and the check accepts the table. */
  lemma TableIff(byId: seq<Entry>, g: nat, table: seq<Module>)
    requires EndsAreLast(byId) && OnlyFirst(byId, g) && ParsedFrom(byId, table)
    ensures (exists q :: PipelineShape(table, q))
       <==> NoMinusOne(byId) && Check(NextsOf(table), NoneSeen(|table|), g)
  {
    hide Check, Tour, StageAt, EndsAreLast, PipelineShape;
    assert NextsOf(table) == Nexts(byId);
    CheckIff(NextsOf(table), NoneSeen(|table|), g);
    if q :| PipelineShape(table, q) {
      ShapeIsTour(table, q);
      FirstIs(byId, g, table, q);
      ShapeIff(byId, g, q, table);
    }
    if NoMinusOne(byId) && Check(NextsOf(table), NoneSeen(|table|), g) {
      var q :| Tour(NextsOf(table), NoneSeen(|table|), g, q);
      ShapeIff(byId, g, q, table);
    }
  }

  lemma FirstIs(byId: seq<Entry>, g: nat, table: seq<Module>, q: seq<int>)
    requires OnlyFirst(byId, g) && ParsedFrom(byId, table) && PipelineShape(table, q)
    ensures q[0] == g
  {
    ShapeIsTour(table, q);
    assert byId[q[0]].kind == FIRST;
  }

  /** From an accepted configuration whose ids fit the table, the server runs a chain if and only if the ids are
      different, no entry has the number -1 as "next_id", and the same check, run on the server's table from the FIRST
      module, accepts too. */
  lemma RunsChainIff(entries: seq<Entry>, f: nat, p: seq<int>, modules: seq<Module>)
    requires Good(entries, f, p) && ParsedFrom(entries, modules) && IdsInTable(modules)
    ensures Filled(modules) <==> DistinctIds(modules)
    ensures (exists q :: RunsChain(modules, q))
       <==> (&& DistinctIds(modules) && NoMinusOne(entries) && Filled(modules)
             && Check(NextsOf(Table(modules)), NoneSeen(|modules|), modules[f].id))
  {
    hide Check, Tour, PipelineShape, LastWith, EndsAreLast, DistinctIds, NoMinusOne;
    FilledIff(modules);
    if Filled(modules) {
      var byId := Sorted(entries, modules);
      SortedGood(entries, f, byId, modules[f].id);
      TableIff(byId, modules[f].id, Table(modules));
      if q :| PipelineShape(Table(modules), q) {
        assert RunsChain(modules, q);
      }
    }
  }

  lemma ArrangedIsTable(modules: seq<Module>, table: seq<Module>)
    requires Arranged(modules, table) && Filled(modules)
    ensures Table(modules) == table
  {
    hide LastWith;
    var holders := Holders(modules);
    assert forall id :: 0 <= id < |modules| ==> table[modules[holders[id]].id] == modules[holders[id]];
  }

  /** Ids that are not the positions can be right: the server runs this file's modules along 0, 1, 3, 2. */
  lemma OtherIdsCanBeRight()
    ensures var entries := [Entry(0, Some(1), FIRST), Entry(3, Some(2), MIDDLE), Entry(1, Some(3), MIDDLE),
                           Entry(2, None, LAST)];
            var modules := [Module(0, 1, FIRST), Module(3, 2, MIDDLE), Module(1, 3, MIDDLE), Module(2, -1, LAST)];
            && Good(entries, 0, [0, 1, 2, 3]) && ParsedFrom(entries, modules)
            && RunsChain(modules, [0, 1, 3, 2])
  {
    hide LastWith, Table, NextsOf, PipelineShape;
    RunsInOrder([Module(0, 1, FIRST), Module(3, 2, MIDDLE), Module(1, 3, MIDDLE), Module(2, -1, LAST)]);
  }

  lemma RunsInOrder(modules: seq<Module>)
    requires modules == [Module(0, 1, FIRST), Module(3, 2, MIDDLE), Module(1, 3, MIDDLE), Module(2, -1, LAST)]
    ensures RunsChain(modules, [0, 1, 3, 2])
  {
    hide LastWith, Table;
    var table := [Module(0, 1, FIRST), Module(1, 3, MIDDLE), Module(2, -1, LAST), Module(3, 2, MIDDLE)];
    FilledIff(modules);
    ArrangedIsTable(modules, table);
    assert PipelineShape(table, [0, 1, 3, 2]);
  }

  /** Two entries with one id leave a hole in the table, and the check does not see it. */
  lemma SameIdIsAccepted()
    ensures var entries := [Entry(0, Some(1), FIRST), Entry(0, None, LAST)];
            Good(entries, 0, [0, 1]) && !Filled([Parsed(entries[0]), Parsed(entries[1])])
  {
    var entries := [Entry(0, Some(1), FIRST), Entry(0, None, LAST)];
    var modules := [Parsed(entries[0]), Parsed(entries[1])];
    FilledIff(modules);
    assert modules[0].id == modules[1].id;
  }
}
