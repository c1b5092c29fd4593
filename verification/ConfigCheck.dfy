/** Reading the pipeline configuration and checking that it describes a chain (config/src/config.cpp), and the table
    that the pipeline server builds from it (pipeline/src/pipeline_server.c). */
module ConfigCheck {
  import opened Basics
  import Children

  // ----- the walk that checks the chain -----

  /** dfs_check on values: `was` tells the modules already visited. */
  ghost predicate Check(nexts: seq<int>, was: seq<bool>, now: int)
    requires |was| == |nexts| && now != -1
    decreases Unseen(was)
  {
    0 <= now < |nexts| && !was[now] &&
    (UnseenDrops(was, now);
     if nexts[now] == -1 then AllVisited(was[now := true])
     else Check(nexts, was[now := true], nexts[now]))
  }

  ghost predicate AllVisited(was: seq<bool>) {
    forall i :: 0 <= i < |was| ==> was[i]
  }

  ghost function Unseen(was: seq<bool>): nat {
    if was == [] then 0 else Unseen(was[..|was| - 1]) + if was[|was| - 1] then 0 else 1
  }

  lemma {:induction false} UnseenDrops(was: seq<bool>, now: nat)
    requires now < |was| && !was[now]
    ensures Unseen(was[now := true]) == Unseen(was) - 1
  {
    var marked, last := was[now := true], |was| - 1;
    if now < last {
      UnseenDrops(was[..last], now);
      assert marked[..last] == was[..last][now := true];
    } else {
      assert marked[..last] == was[..last];
    }
  }

  /** Following `next` from the first element of `p` goes through `p` and stops there. */
  ghost predicate Follows(nexts: seq<int>, p: seq<int>) {
    && p != []
    && (forall k :: 0 <= k < |p| ==> 0 <= p[k] < |nexts|)
    && (forall k :: 0 <= k < |p| - 1 ==> nexts[p[k]] == p[k + 1])
    && nexts[p[|p| - 1]] == -1
  }

  /** `p` visits every module that is not marked, each exactly once. */
  ghost predicate Covers(was: seq<bool>, p: seq<int>) {
    Children.Distinct(p) && forall i :: 0 <= i < |was| ==> (i in p <==> !was[i])
  }

  ghost predicate Tour(nexts: seq<int>, was: seq<bool>, now: int, p: seq<int>) {
    Follows(nexts, p) && Covers(was, p) && p[0] == now
  }

  lemma Prepended(nexts: seq<int>, was: seq<bool>, now: nat, rest: seq<int>)
    requires |was| == |nexts| && now < |nexts| && !was[now] && nexts[now] != -1
    requires Tour(nexts, was[now := true], nexts[now], rest)
    ensures Tour(nexts, was, now, [now] + rest)
  {
    var marked, p := was[now := true], [now] + rest;
    assert forall k :: 0 <= k < |rest| ==> rest[k] in rest && !marked[rest[k]];
    assert Follows(nexts, p) && Children.Distinct(p);
    forall i | 0 <= i < |was| ensures i in p <==> !was[i] {
      assert i in p <==> i == now || i in rest;
      assert i != now ==> marked[i] == was[i];
    }
  }

  lemma TourTail(nexts: seq<int>, was: seq<bool>, now: int, p: seq<int>)
    requires |was| == |nexts| && Tour(nexts, was, now, p)
    ensures 0 <= now < |nexts| && !was[now]
    ensures |p| == 1 <==> nexts[now] == -1
    ensures |p| == 1 ==> AllVisited(was[now := true])
    ensures |p| > 1 ==> Tour(nexts, was[now := true], nexts[now], p[1..])
  {
    var marked := was[now := true];
    assert now in p;
    if |p| == 1 {
      assert forall i :: 0 <= i < |was| && i != now ==> i !in p;
    } else {
      assert nexts[p[0]] == p[1] && 0 <= p[1];
      var rest := p[1..];
      forall i | 0 <= i < |was| ensures i in rest <==> !marked[i] {
        assert p == [now] + rest;
        assert i == now ==> i !in rest;
      }
    }
  }

  lemma {:induction false} CheckHasTour(nexts: seq<int>, was: seq<bool>, now: int) returns (p: seq<int>)
    requires |was| == |nexts| && now != -1 && Check(nexts, was, now)
    ensures Tour(nexts, was, now, p)
    decreases Unseen(was)
  {
    UnseenDrops(was, now);
    if nexts[now] == -1 {
      p := [now];
      assert forall i :: 0 <= i < |was| && i != now ==> was[now := true][i] == was[i];
    } else {
      hide Tour;
      var rest := CheckHasTour(nexts, was[now := true], nexts[now]);
      Prepended(nexts, was, now, rest);
      p := [now] + rest;
    }
  }

  lemma {:induction false} TourIsChecked(nexts: seq<int>, was: seq<bool>, now: int, p: seq<int>)
    requires |was| == |nexts| && Tour(nexts, was, now, p)
    ensures now != -1 && Check(nexts, was, now)
    decreases |p|
  {
    TourTail(nexts, was, now, p);
    UnseenDrops(was, now);
    if |p| > 1 {
      TourIsChecked(nexts, was[now := true], nexts[now], p[1..]);
    }
  }

  /** The check accepts if and only if following `next` visits every unmarked module exactly once and then ends. */
  lemma CheckIff(nexts: seq<int>, was: seq<bool>, now: int)
    requires |was| == |nexts| && now != -1
    ensures Check(nexts, was, now) <==> exists p :: Tour(nexts, was, now, p)
  {
    hide Check, Tour;
    if Check(nexts, was, now) {
      var p := CheckHasTour(nexts, was, now);
    }
    if p :| Tour(nexts, was, now, p) {
      TourIsChecked(nexts, was, now, p);
    }
  }

  /** The code: marks modules in place. It never gets -1, which would be outside `was`; the caller starts at a module
      and the recursion stops in front of it. */
  method DfsCheck(nexts: seq<int>, was: array<bool>, now: int) returns (ok: bool)
    requires was.Length == |nexts| && now != -1
    modifies was
    ensures ok <==> Check(nexts, old(was[..]), now)
    ensures forall i :: 0 <= i < was.Length && old(was[i]) ==> was[i]
    decreases Unseen(was[..])
  {
    if now < -1 || now >= |nexts| {
      return false;
    }
    if was[now] {
      return false;
    }
    ghost var before := was[..];
    UnseenDrops(before, now);
    was[now] := true;
    assert was[..] == before[now := true];
    if nexts[now] == -1 {
      var i := 0;
      while i < |nexts|
        invariant 0 <= i <= |nexts|
        invariant forall k :: 0 <= k < i ==> was[k]
      {
        if !was[i] {
          assert !before[now := true][i];
          return false;
        }
        i := i + 1;
      }
      return true;
    }
    ok := DfsCheck(nexts, was, nexts[now]);
  }

  // ----- reading the configuration -----

  /** The "type" of an entry; OTHER is any other string. */
  datatype Kind = FIRST | MIDDLE | LAST | OTHER

  /** A parsed entry; `nextId` is None for null. */
  datatype Entry = Entry(id: int, nextId: Option<int>, kind: Kind)

  datatype Module = Module(id: int, next: int, kind: Kind)

  function Parsed(e: Entry): Module {
    match e.nextId
    case Some(next) => Module(e.id, next, if e.kind == FIRST then FIRST else MIDDLE)
    case None => Module(e.id, -1, LAST)
  }

  function Nexts(entries: seq<Entry>): (s: seq<int>)
    ensures |s| == |entries|
    ensures forall i :: 0 <= i < |entries| ==> s[i] == Parsed(entries[i]).next
  {
    seq(|entries|, i requires 0 <= i < |entries| => Parsed(entries[i]).next)
  }

  function NoneSeen(n: nat): (s: seq<bool>)
    ensures |s| == n && forall i :: 0 <= i < n ==> !s[i]
  {
    seq(n, _ => false)
  }

  ghost predicate EndsAreLast(entries: seq<Entry>) {
    forall i :: 0 <= i < |entries| ==> (entries[i].nextId == None <==> entries[i].kind == LAST)
  }

  ghost predicate OnlyFirst(entries: seq<Entry>, f: nat) {
    f < |entries| && forall i :: 0 <= i < |entries| ==> (entries[i].kind == FIRST <==> i == f)
  }

  /** What a good configuration is, by position in the file: the entries without a successor are the LAST ones, one
      entry is FIRST, and following "next_id" from it visits every entry exactly once. */
  ghost predicate Good(entries: seq<Entry>, f: nat, p: seq<int>) {
    EndsAreLast(entries) && OnlyFirst(entries, f) && Tour(Nexts(entries), NoneSeen(|entries|), f, p)
  }

  /** model_read_configuration after parsing. */
  method ReadConfiguration(entries: seq<Entry>) returns (r: Option<seq<Module>>)
    ensures r.Some? <==> exists f, p :: Good(entries, f, p)
    ensures r.Some? ==> |r.value| == |entries| && forall i :: 0 <= i < |entries| ==> r.value[i] == Parsed(entries[i])
  {
    hide Tour, Check;
    var modules: seq<Module> := [];
    var first := -1;
    for i := 0 to |entries|
      invariant |modules| == i && forall k :: 0 <= k < i ==> modules[k] == Parsed(entries[k])
      invariant -1 <= first < i
      invariant forall k :: 0 <= k < i ==> (entries[k].nextId == None <==> entries[k].kind == LAST)
      invariant forall k :: 0 <= k < i ==> (entries[k].kind == FIRST <==> k == first)
    {
      var e := entries[i];
      var next, kind;
      if e.nextId.Some? {
        next := e.nextId.value;
        if e.kind == LAST {
          return None;
        }
        kind := MIDDLE;
      } else {
        next := -1;
        if e.kind != LAST {
          return None;
        }
        kind := LAST;
      }
      if e.kind == FIRST {
        if first != -1 {
          assert entries[first].kind == FIRST;
          return None;
        }
        first := i;
        kind := FIRST;
      }
      modules := modules + [Module(e.id, next, kind)];
    }
    assert forall f: nat, p :: Good(entries, f, p) ==> entries[f].kind == FIRST;
    if first == -1 {
      return None;
    }
    var was := new bool[|entries|](_ => false);
    assert was[..] == NoneSeen(|entries|);
    var nexts := Nexts(entries);
    CheckIff(nexts, NoneSeen(|entries|), first);
    var ok := DfsCheck(nexts, was, first);
    if !ok {
      assert forall f: nat, p :: Good(entries, f, p) ==> f == first;
      return None;
    }
    ghost var p :| Tour(nexts, NoneSeen(|entries|), first, p);
    assert Good(entries, first, p);
    r := Some(modules);
  }

  // ----- what an accepted configuration is good for -----

  /** A tour of all modules has as many steps as there are modules. */
  lemma {:induction false} TourLength(nexts: seq<int>, was: seq<bool>, now: int, p: seq<int>)
    requires |was| == |nexts| && Tour(nexts, was, now, p)
    ensures |p| == Unseen(was)
    decreases |p|
  {
    TourTail(nexts, was, now, p);
    UnseenDrops(was, now);
    if |p| == 1 {
      AllSeen(was[now := true]);
    } else {
      TourLength(nexts, was[now := true], nexts[now], p[1..]);
    }
  }

  lemma {:induction false} AllSeen(was: seq<bool>)
    requires AllVisited(was)
    ensures Unseen(was) == 0
  {
    if was != [] {
      AllSeen(was[..|was| - 1]);
    }
  }

  lemma {:induction false} NothingSeen(n: nat)
    ensures Unseen(NoneSeen(n)) == n
  {
    if n > 0 {
      NothingSeen(n - 1);
      assert NoneSeen(n)[..n - 1] == NoneSeen(n - 1);
    }
  }

  ghost predicate Precedes(nexts: seq<int>, j: int, i: int) {
    0 <= j < |nexts| && nexts[j] == i
  }

  ghost predicate HasPredecessor(nexts: seq<int>, i: int) {
    exists j :: Precedes(nexts, j, i)
  }

  /** In an accepted configuration the first module has no predecessor and every other one has exactly one; one module
      has no successor. */
  lemma OnePredecessor(entries: seq<Entry>, f: nat, p: seq<int>)
    requires Good(entries, f, p)
    ensures |p| == |entries|
    ensures forall i :: 0 <= i < |entries| ==> (HasPredecessor(Nexts(entries), i) <==> i != f)
    ensures forall i, j, k :: Precedes(Nexts(entries), j, i) && Precedes(Nexts(entries), k, i) ==> j == k
    ensures HasPredecessor(Nexts(entries), -1)
  {
    var nexts, was := Nexts(entries), NoneSeen(|entries|);
    TourLength(nexts, was, f, p);
    NothingSeen(|entries|);
    forall i, j | Precedes(nexts, j, i) ensures i != f && (i == -1 <==> j == p[|p| - 1]) {
      var k := Position(was, p, j);
      assert nexts[p[k]] == if k < |p| - 1 then p[k + 1] else -1;
    }
    forall i, j, k | Precedes(nexts, j, i) && Precedes(nexts, k, i) ensures j == k {
      var a := Position(was, p, j);
      var b := Position(was, p, k);
      assert nexts[p[a]] == if a < |p| - 1 then p[a + 1] else -1;
      assert nexts[p[b]] == if b < |p| - 1 then p[b + 1] else -1;
    }
    forall i | 0 <= i < |entries| && i != f ensures HasPredecessor(nexts, i) {
      var k := Position(was, p, i);
      assert Precedes(nexts, p[k - 1], i) by {
        assert nexts[p[k - 1]] == p[k];
      }
    }
    assert Precedes(nexts, p[|p| - 1], -1);
  }

  lemma Position(was: seq<bool>, p: seq<int>, i: nat) returns (k: nat)
    requires Covers(was, p) && i < |was| && !was[i]
    ensures k < |p| && p[k] == i
  {
    assert i in p;
    k :| 0 <= k < |p| && p[k] == i;
  }

  /** The thread that runs the stage in place `k` and its successor: a source, process stages, the finalization. */
  ghost predicate StageAt(modules: seq<Module>, p: seq<int>, k: nat)
    requires k < |p| && 0 <= p[k] < |modules|
  {
    var m := modules[p[k]];
    if k == |p| - 1 then m.kind == LAST && m.next == -1
    else m.kind == (if k == 0 then FIRST else MIDDLE) && m.next == p[k + 1]
  }

  ghost predicate PipelineShape(modules: seq<Module>, p: seq<int>) {
    && |p| == |modules| >= 2
    && Children.Distinct(p)
    && (forall k :: 0 <= k < |p| ==> 0 <= p[k] < |modules|)
    && (forall k :: 0 <= k < |p| ==> StageAt(modules, p, k))
  }

  lemma StageIff(entries: seq<Entry>, f: nat, p: seq<int>, modules: seq<Module>, k: nat)
    requires Good(entries, f, p) && k < |p|
    requires |modules| == |entries| && forall i :: 0 <= i < |entries| ==> modules[i] == Parsed(entries[i])
    ensures entries[p[k]].nextId != Some(-1) <==> |p| >= 2 && StageAt(modules, p, k)
  {
    var e := entries[p[k]];
    assert modules[p[k]] == Parsed(e) && Nexts(entries)[p[k]] == Parsed(e).next;
    assert k > 0 ==> p[0] != p[k];
    assert e.kind == FIRST <==> k == 0;
  }

  /** An accepted configuration has that shape if and only if no entry writes the number -1 as its "next_id": such an
      entry ends the chain for the check, but it is not a LAST one. */
  lemma ShapeIff(entries: seq<Entry>, f: nat, p: seq<int>, modules: seq<Module>)
    requires Good(entries, f, p)
    requires |modules| == |entries| && forall i :: 0 <= i < |entries| ==> modules[i] == Parsed(entries[i])
    ensures PipelineShape(modules, p) <==> forall i :: 0 <= i < |entries| ==> entries[i].nextId != Some(-1)
  {
    hide StageAt;
    OnePredecessor(entries, f, p);
    forall k | 0 <= k < |p| ensures entries[p[k]].nextId != Some(-1) <==> |p| >= 2 && StageAt(modules, p, k) {
      StageIff(entries, f, p, modules, k);
    }
    if PipelineShape(modules, p) {
      forall i | 0 <= i < |entries| ensures entries[i].nextId != Some(-1) {
        var k := Position(NoneSeen(|entries|), p, i);
        assert StageAt(modules, p, k);
      }
    }
  }

  /** Such a configuration is accepted: a single FIRST entry with the number -1. It is no pipeline along any order. */
  lemma MinusOneIsAccepted()
    ensures var e := Entry(0, Some(-1), FIRST);
            Good([e], 0, [0]) && forall q :: !PipelineShape([Parsed(e)], q)
  { }

  /** It need not be the only one: here the chain ends in a process stage, and there is no finalization. */
  lemma ChainWithoutLastIsAccepted()
    ensures var entries := [Entry(0, Some(1), FIRST), Entry(1, Some(-1), MIDDLE)];
            Good(entries, 0, [0, 1]) && forall q :: !PipelineShape([Parsed(entries[0]), Parsed(entries[1])], q)
  {
    var modules := [Module(0, 1, FIRST), Module(1, -1, MIDDLE)];
    forall q ensures !PipelineShape(modules, q) {
      if PipelineShape(modules, q) {
        EndsInLast(modules, q);
        assert false;
      }
    }
  }

  lemma EndsInLast(modules: seq<Module>, q: seq<int>)
    requires PipelineShape(modules, q)
    ensures exists i :: 0 <= i < |modules| && modules[i].kind == LAST
  {
    assert StageAt(modules, q, |q| - 1);
    assert modules[q[|q| - 1]].kind == LAST;
  }

  // ----- the server's table -----

  /** The modules in the order of their ids. */
  ghost predicate Arranged(modules: seq<Module>, table: seq<Module>) {
    && |table| == |modules|
    && (forall i :: 0 <= i < |modules| ==> 0 <= modules[i].id < |modules|)
    && (forall i :: 0 <= i < |modules| ==> table[modules[i].id] == modules[i])
  }

  /** The last module with id `id`. */
  function LastWith(modules: seq<Module>, id: int): Option<Module> {
    if modules == [] then None
    else if modules[|modules| - 1].id == id then Some(modules[|modules| - 1])
    else LastWith(modules[..|modules| - 1], id)
  }

  /** The server stores each module under its id and takes `next` for an id too; the ids must be places in the table.
      Where two modules have the same id the later one stays. */
  method Arrange(modules: seq<Module>) returns (table: array<Option<Module>>)
    requires forall i :: 0 <= i < |modules| ==> 0 <= modules[i].id < |modules|
    ensures fresh(table) && table.Length == |modules|
    ensures forall id :: 0 <= id < |modules| ==> table[id] == LastWith(modules, id)
  {
    table := new Option<Module>[|modules|](_ => None);
    for i := 0 to |modules|
      invariant forall id :: 0 <= id < |modules| ==> table[id] == LastWith(modules[..i], id)
    {
      table[modules[i].id] := Some(modules[i]);
      assert modules[..i + 1][..i] == modules[..i];
    }
    assert modules[..|modules|] == modules;
  }

  /** When the ids are different, the table is the modules in the order of their ids. */
  lemma {:induction false} TableIsArranged(modules: seq<Module>, table: seq<Module>, n: nat, i: nat)
    requires Arranged(modules, table) && i < n <= |modules|
    ensures LastWith(modules[..n], modules[i].id) == Some(table[modules[i].id])
  {
    assert modules[..n][..n - 1] == modules[..n - 1];
    if modules[n - 1].id != modules[i].id {
      TableIsArranged(modules, table, n - 1, i);
    }
  }

  /** When the ids are the positions in the file the server runs the chain that was checked. */
  lemma IdsArePositions(entries: seq<Entry>, f: nat, p: seq<int>, modules: seq<Module>, table: seq<Module>)
    requires Good(entries, f, p) && Arranged(modules, table)
    requires |modules| == |entries| && forall i :: 0 <= i < |entries| ==> modules[i] == Parsed(entries[i])
    requires forall i :: 0 <= i < |entries| ==> entries[i].id == i
    ensures table == modules
    ensures PipelineShape(table, p) <==> forall i :: 0 <= i < |entries| ==> entries[i].nextId != Some(-1)
  {
    forall i | 0 <= i < |entries| ensures table[i] == modules[i] {
      assert modules[i].id == i;
    }
    assert table == modules;
    ShapeIff(entries, f, p, modules);
  }

  lemma SourceIsNotItsSuccessor(modules: seq<Module>, p: seq<int>)
    requires PipelineShape(modules, p)
    ensures 0 <= p[0] < |modules| && modules[p[0]].kind == FIRST && modules[p[0]].next != p[0]
  {
    assert StageAt(modules, p, 0);
  }

  /** The check goes by position, the server by id. Two entries in the other order: the check is content, and the
      server's source gets itself as its successor. */
  lemma CheckedByPosition()
    ensures var entries := [Entry(1, Some(1), FIRST), Entry(0, None, LAST)];
            && Good(entries, 0, [0, 1])
            && Arranged([Parsed(entries[0]), Parsed(entries[1])], [Parsed(entries[1]), Parsed(entries[0])])
            && Parsed(entries[0]) == Module(1, 1, FIRST)
            && forall p :: !PipelineShape([Parsed(entries[1]), Parsed(entries[0])], p)
  {
    var entries := [Entry(1, Some(1), FIRST), Entry(0, None, LAST)];
    var table := [Parsed(entries[1]), Parsed(entries[0])];
    forall p ensures !PipelineShape(table, p) {
      if PipelineShape(table, p) {
        SourceIsNotItsSuccessor(table, p);
        assert false;
      }
    }
  }
}
