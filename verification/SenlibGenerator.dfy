/** The generator itself: it shallow-clones the template map and writes through the clone into nested
    maps the template shares. Each call refines `SenlibConfig.Generate`. */
module SenlibGenerator {
  import opened Strings
  import opened Types
  import opened JsonHeap
  import opened SenlibConfig

  /** Template and clone share every child the template has; the clone's other children are its own. */
  predicate Linked(h: Heap, root: nat, clone: nat, p: Pair) {
    && Tree(h, Ref(root), JObj(p.t)) && Tree(h, Ref(clone), JObj(p.c)) && root != clone
    && clone !in Foot(h, Ref(root), JObj(p.t)) && root !in Foot(h, Ref(clone), JObj(p.c))
    && (forall k :: k in p.t ==> k in p.c && h[clone][k] == h[root][k] && p.c[k] == p.t[k])
    && (forall k :: k in p.c && k !in p.t ==> Foot(h, h[clone][k], p.c[k]) !! Foot(h, Ref(root), JObj(p.t)))
  }

  /** `maps.Clone`: a new top-level map with the same children. */
  lemma CloneLinks(h: Heap, h2: Heap, root: nat, n: nat, t: Fields)
    requires Tree(h, Ref(root), JObj(t)) && n !in h && h2 == h[n := h[root]]
    ensures Linked(h2, root, n, Pair(t, t))
  {
    FootInHeap(h, Ref(root), JObj(t));
    FrameTree(h, h2, Ref(root), JObj(t));
    forall k | k in t ensures Tree(h2, h2[n][k], t[k]) && Foot(h2, h2[n][k], t[k]) == Foot(h2, h2[root][k], t[k]) {
      ChildOf(h2, root, t, k);
    }
  }

  /** The root keeps its tree, and its addresses, when only the given addresses were written. */
  lemma RootKept(h: Heap, h2: Heap, root: nat, t: Fields, xs: set<nat>)
    requires Tree(h, Ref(root), JObj(t)) && OnlyWrites(h, h2, xs) && xs !! Foot(h, Ref(root), JObj(t))
    ensures Tree(h2, Ref(root), JObj(t)) && Foot(h2, Ref(root), JObj(t)) == Foot(h, Ref(root), JObj(t))
  {
    FootInHeap(h, Ref(root), JObj(t));
    FrameTree(h, h2, Ref(root), JObj(t));
  }

  lemma ChildrenApart(h: Heap, a: nat, fields: Fields, k: string, l: string)
    requires Tree(h, Ref(a), JObj(fields)) && k in fields && l in fields && k != l
    ensures Tree(h, h[a][l], fields[l]) && Foot(h, h[a][k], fields[k]) !! Foot(h, h[a][l], fields[l])
    ensures Foot(h, h[a][l], fields[l]) <= h.Keys
  {
    ChildOf(h, a, fields, l);
    FootInHeap(h, h[a][l], fields[l]);
  }

  /** The two trees after a write below a key of the clone. */
  lemma TreesAfter(h: Heap, h2: Heap, root: nat, clone: nat, p: Pair, key: string, inner: Fields)
    requires Linked(h, root, clone, p) && key in p.c && p.c[key].JObj?
    requires h[clone][key].Ref? && Tree(h, h[clone][key], p.c[key])
    requires Became(h, h2, h[clone][key].addr, p.c[key].fields, inner)
    ensures Became(h, h2, clone, p.c, p.c[key := JObj(inner)])
    ensures key in p.t ==> Became(h, h2, root, p.t, p.t[key := JObj(inner)])
    ensures key !in p.t ==> Tree(h2, Ref(root), JObj(p.t)) && Foot(h2, Ref(root), JObj(p.t)) == Foot(h, Ref(root), JObj(p.t))
    ensures h2[clone] == h[clone] && h2[root] == h[root]
  {
    ChildOf(h, clone, p.c, key);
    ChildBecame(h, h2, clone, p.c, key, inner);
    if key in p.t {
      ChildBecame(h, h2, root, p.t, key, inner);
    } else {
      RootKept(h, h2, root, p.t, Foot(h, h[clone][key], p.c[key]));
    }
  }

  /** The clone's own children stay apart from the template. */
  lemma OwnStaysApart(h: Heap, h2: Heap, root: nat, clone: nat, p: Pair, key: string, inner: Fields, k: string)
    requires Linked(h, root, clone, p) && key in p.c && p.c[key].JObj?
    requires h[clone][key].Ref? && Tree(h, h[clone][key], p.c[key])
    requires Became(h, h2, h[clone][key].addr, p.c[key].fields, inner)
    requires k in p.c && k !in p.t && k != key
    ensures Tree(h2, h[clone][k], p.c[k]) && Foot(h2, h[clone][k], p.c[k]) == Foot(h, h[clone][k], p.c[k])
    ensures Foot(h, h[clone][k], p.c[k]) <= h.Keys
  {
    ChildrenApart(h, clone, p.c, key, k);
    FrameTree(h, h2, h[clone][k], p.c[k]);
  }

  lemma ChildrenDenote(h: Heap, a: nat, fields: Fields)
    requires Tree(h, Ref(a), JObj(fields))
    ensures a in h && h[a].Keys == fields.Keys && forall k :: k in fields ==> Denotes(h, h[a][k], fields[k])
  {
  }

  lemma EmptyMap(h: Heap, n: nat)
    requires n in h && h[n] == map[]
    ensures Tree(h, Ref(n), JObj(map[])) && Foot(h, Ref(n), JObj(map[])) == {n}
  {
  }

  lemma LinkedHeap(h: Heap, root: nat, clone: nat, p: Pair)
    requires Linked(h, root, clone, p)
    ensures root in h && clone in h && h[root].Keys == p.t.Keys && h[clone].Keys == p.c.Keys
    ensures Foot(h, Ref(root), JObj(p.t)) <= h.Keys
  {
    FootInHeap(h, Ref(root), JObj(p.t));
  }

  lemma StaysLinked(h: Heap, h2: Heap, root: nat, clone: nat, p: Pair, key: string, inner: Fields)
    requires Linked(h, root, clone, p) && key in p.c && p.c[key].JObj?
    requires clone in h && key in h[clone] && h[clone][key].Ref? && Tree(h, h[clone][key], p.c[key])
    requires Became(h, h2, h[clone][key].addr, p.c[key].fields, inner)
    ensures Linked(h2, root, clone, SetKey(p, key, JObj(inner)))
  {
    hide Denotes, Separate, Foot;
    var q := SetKey(p, key, JObj(inner));
    LinkedHeap(h, root, clone, p);
    TreesAfter(h, h2, root, clone, p, key, inner);
    ChildrenDenote(h2, clone, q.c);
    forall k | k in q.c && k !in q.t ensures Foot(h2, h2[clone][k], q.c[k]) !! Foot(h2, Ref(root), JObj(q.t)) {
      if k != key {
        OwnStaysApart(h, h2, root, clone, p, key, inner, k);
      }
    }
  }

  lemma OwnAfterCreate(h: Heap, h2: Heap, clone: nat, c: Fields, key: string, n: nat, k: string)
    requires Tree(h, Ref(clone), JObj(c)) && key !in c && n !in h && k in c
    requires h2 == h[n := map[]][clone := h[clone][key := Ref(n)]]
    ensures Tree(h2, h[clone][k], c[k]) && Foot(h2, h[clone][k], c[k]) == Foot(h, h[clone][k], c[k])
  {
    ChildOf(h, clone, c, k);
    FootInHeap(h, h[clone][k], c[k]);
    FrameTree(h, h2, h[clone][k], c[k]);
  }

  /** A new map of the clone's own under a key neither has. */
  lemma CreateLinks(h: Heap, h2: Heap, root: nat, clone: nat, p: Pair, key: string, n: nat)
    requires Linked(h, root, clone, p) && key !in p.c && n !in h && clone in h
    requires h2 == h[n := map[]][clone := h[clone][key := Ref(n)]]
    ensures Linked(h2, root, clone, SetKey(p, key, JObj(map[])))
    ensures h2[clone][key] == Ref(n) && Tree(h2, Ref(n), JObj(map[]))
  {
    hide Denotes, Separate, Foot, Tree;
    LinkedHeap(h, root, clone, p);
    EmptyMap(h2, n);
    PutEmpty(h, h2, clone, p.c, key, n);
    RootKept(h, h2, root, p.t, {clone});
    var q := SetKey(p, key, JObj(map[]));
    assert q.t == p.t && q.c == p.c[key := JObj(map[])];
    ChildrenDenote(h2, clone, q.c);
    forall k | k in q.c && k !in q.t ensures Foot(h2, h2[clone][k], q.c[k]) !! Foot(h2, Ref(root), JObj(q.t)) {
      if k != key {
        OwnAfterCreate(h, h2, clone, p.c, key, n, k);
      }
    }
  }

  /** What writing below a key does to both values. */
  function PutPair(p: Pair, key: string, path: seq<string>, leaf: Json): Option<Pair>
    requires path != []
  {
    var child := ChildOr(p.c, key);
    if !child.JObj? || Put(child.fields, path, leaf).None? then None
    else Some(SetKey(p, key, JObj(Put(child.fields, path, leaf).value)))
  }

  /** Writes a leaf below a key of the clone, as the generator's chains of map assertions do. */
  method SetUnder(h: Heap, next: nat, root: nat, clone: nat, key: string, path: seq<string>, leaf: Json, ghost p: Pair)
      returns (h2: Heap, next2: nat, ok: bool)
    requires path != [] && !leaf.JObj? && Bounded(h, next) && Linked(h, root, clone, p)
    ensures ok <==> PutPair(p, key, path, leaf).Some?
    ensures ok ==> Linked(h2, root, clone, PutPair(p, key, path, leaf).value)
    ensures !ok ==> h2 == h
    ensures Bounded(h2, next2)
  {
    CloneHeap(h, root, clone, p, key);
    hide Denotes, Separate, Foot, Tree, Became, Linked;
    if key !in h[clone] {
      h2, next2 := SetUnderNew(h, next, root, clone, key, path, leaf, p);
      ok := true;
    } else if h[clone][key].Leaf? {
      h2, next2, ok := h, next, false;
    } else {
      ghost var fields := p.c[key].fields;
      h2, next2, ok := SetNested(h, next, h[clone][key].addr, path, leaf, fields);
      if ok {
        StaysLinked(h, h2, root, clone, p, key, Put(fields, path, leaf).value);
      }
    }
  }

  /** What the clone's map tells about a key. */
  lemma CloneHeap(h: Heap, root: nat, clone: nat, p: Pair, key: string)
    requires Linked(h, root, clone, p)
    ensures root in h && clone in h && (key in h[clone] <==> key in p.c)
    ensures key in h[clone] ==> (h[clone][key].Ref? <==> p.c[key].JObj?)
    ensures key in h[clone] && h[clone][key].Ref? ==>
              Tree(h, h[clone][key], p.c[key]) && Tree(h, Ref(h[clone][key].addr), JObj(p.c[key].fields))
  {
    LinkedHeap(h, root, clone, p);
    if key in p.c {
      ChildOf(h, clone, p.c, key);
    }
  }

  method SetUnderNew(h: Heap, next: nat, root: nat, clone: nat, key: string, path: seq<string>, leaf: Json, ghost p: Pair)
      returns (h2: Heap, next2: nat)
    requires path != [] && !leaf.JObj? && Bounded(h, next) && Linked(h, root, clone, p)
    requires key !in p.c && clone in h && root in h
    ensures PutPair(p, key, path, leaf).Some?
    ensures Linked(h2, root, clone, PutPair(p, key, path, leaf).value)
    ensures Bounded(h2, next2)
  {
    hide Denotes, Separate, Foot, Tree, Became, Linked;
    var h1 := h[next := map[]][clone := h[clone][key := Ref(next)]];
    CreateLinks(h, h1, root, clone, p, key, next);
    ghost var p1 := SetKey(p, key, JObj(map[]));
    EmptyTakesAnyPath(path, leaf);
    var ok;
    h2, next2, ok := SetNested(h1, next + 1, next, path, leaf, map[]);
    ghost var inner := Put(map[], path, leaf).value;
    StaysLinked(h1, h2, root, clone, p1, key, inner);
    assert SetKey(p1, key, JObj(inner)) == SetKey(p, key, JObj(inner)) by {
      assert p.c[key := JObj(map[])][key := JObj(inner)] == p.c[key := JObj(inner)];
      assert key in p.t ==> p.t[key := JObj(map[])][key := JObj(inner)] == p.t[key := JObj(inner)];
    }
  }

  /** `json.Marshal` walks the maps; on a tree it yields the value they denote. */
  function ReadBack(h: Heap, v: Value, ghost j: Json): (r: Json)
    requires Denotes(h, v, j)
    ensures r == j
    decreases j
  {
    match v
    case Leaf(x) => x
    case Ref(a) => JObj(map k | k in h[a] :: ReadBack(h, h[a][k], j.fields[k]))
  }

  // ----- The three parts, on the heap -----

  lemma SetKeyTwice(p: Pair, key: string, i: Json, j: Json)
    ensures SetKey(SetKey(p, key, i), key, j) == SetKey(p, key, j)
  {
  }

  method SetGeneral(h: Heap, next: nat, root: nat, clone: nat, call: Call, ghost t: Fields)
      returns (h2: Heap, next2: nat)
    requires Bounded(h, next) && Linked(h, root, clone, Pair(t, t)) && GeneralOk(t)
    ensures Bounded(h2, next2) && Linked(h2, root, clone, WithGeneral(t, call))
  {
    hide Denotes, Separate, Foot, Tree, Linked;
    ghost var p := Pair(t, t);
    ghost var g := t[GENERAL].fields;
    var ok;
    h2, next2, ok := SetUnder(h, next, root, clone, GENERAL, [BUS_ID], BusIds(call.busIds), p);
    ghost var p1 := SetKey(p, GENERAL, JObj(g[BUS_ID := BusIds(call.busIds)]));
    assert PutPair(p, GENERAL, [BUS_ID], BusIds(call.busIds)) == Some(p1);
    var doom := JBool(!Contains(call.pool, "spyre_pf"));
    h2, next2, ok := SetUnder(h2, next2, root, clone, GENERAL, [DOOM], doom, p1);
    SetKeyTwice(p, GENERAL, JObj(g[BUS_ID := BusIds(call.busIds)]), JObj(General(g, call)));
    assert PutPair(p1, GENERAL, [DOOM], doom) == Some(WithGeneral(t, call));
  }

  /** The default entry, for a template without `METRICS` or without its general part. */
  method SetDefaultMetrics(h: Heap, next: nat, root: nat, clone: nat, call: Call, ghost p: Pair)
      returns (h2: Heap, next2: nat)
    requires Bounded(h, next) && Linked(h, root, clone, p) && MetricsFailure(p.c).None?
    requires METRIC_GENERAL !in MetricsIn(p.c)
    ensures Bounded(h2, next2) && Linked(h2, root, clone, WithMetrics(p, call))
  {
    hide Denotes, Separate, Foot, Tree, Linked;
    ghost var m := MetricsIn(p.c);
    ghost var off: Fields := map[ENABLE := JBool(false)];
    ghost var m1 := m[METRIC_GENERAL := JObj(off)];
    assert [METRIC_GENERAL, ENABLE] == [METRIC_GENERAL] + [ENABLE] && [METRIC_GENERAL, PATH] == [METRIC_GENERAL] + [PATH];
    PutStep(m, METRIC_GENERAL, [ENABLE], JBool(false));
    PutStep(m1, METRIC_GENERAL, [PATH], JStr(WILDCARD_PATH));
    var ok;
    h2, next2, ok := SetUnder(h, next, root, clone, METRICS, [METRIC_GENERAL, ENABLE], JBool(false), p);
    ghost var p1 := SetKey(p, METRICS, JObj(m1));
    assert PutPair(p, METRICS, [METRIC_GENERAL, ENABLE], JBool(false)) == Some(p1);
    h2, next2, ok := SetUnder(h2, next2, root, clone, METRICS, [METRIC_GENERAL, PATH], JStr(WILDCARD_PATH), p1);
    assert off[PATH := JStr(WILDCARD_PATH)] == DEFAULT_METRICS;
    assert m1[METRIC_GENERAL := JObj(DEFAULT_METRICS)] == Metrics(m, call);
    SetKeyTwice(p, METRICS, JObj(m1), JObj(Metrics(m, call)));
  }

  method SetMetricsPath(h: Heap, next: nat, root: nat, clone: nat, path: Json, call: Call, ghost p: Pair)
      returns (h2: Heap, next2: nat)
    requires Bounded(h, next) && Linked(h, root, clone, p) && MetricsFailure(p.c).None?
    requires METRIC_GENERAL in MetricsIn(p.c) && ENABLE in MetricsIn(p.c)[METRIC_GENERAL].fields
    requires path == MetricsPath(MetricsIn(p.c)[METRIC_GENERAL].fields, call)
    ensures Bounded(h2, next2) && Linked(h2, root, clone, WithMetrics(p, call))
  {
    hide Denotes, Separate, Foot, Tree, Linked;
    ghost var m := MetricsIn(p.c);
    assert [METRIC_GENERAL, PATH] == [METRIC_GENERAL] + [PATH];
    PutStep(m, METRIC_GENERAL, [PATH], path);
    var ok;
    h2, next2, ok := SetUnder(h, next, root, clone, METRICS, [METRIC_GENERAL, PATH], path, p);
    assert PutPair(p, METRICS, [METRIC_GENERAL, PATH], path) == Some(WithMetrics(p, call));
  }

  /** How a map of the heap shows a key: present or not, a map or a value. */
  lemma Shows(h: Heap, a: nat, fields: Fields, k: string)
    requires Tree(h, Ref(a), JObj(fields))
    ensures a in h && (k in h[a] <==> k in fields)
    ensures k in fields ==> (h[a][k].Ref? <==> fields[k].JObj?) && (h[a][k].Leaf? ==> h[a][k].j == fields[k])
    ensures k in fields && fields[k].JObj? ==> Tree(h, Ref(h[a][k].addr), JObj(fields[k].fields))
  {
    if k in fields { ChildOf(h, a, fields, k); }
  }

  /** The reader's view of `METRICS` in the clone, as the nested type assertions test it. */
  lemma MetricsShow(h: Heap, root: nat, clone: nat, p: Pair)
    requires Linked(h, root, clone, p)
    ensures clone in h && (METRICS in h[clone] <==> METRICS in p.c)
    ensures METRICS in p.c ==> (h[clone][METRICS].Ref? <==> p.c[METRICS].JObj?)
    ensures METRICS in p.c && p.c[METRICS].JObj? ==>
              Tree(h, Ref(h[clone][METRICS].addr), JObj(p.c[METRICS].fields))
    ensures METRICS in p.t ==> METRICS in p.c && p.t[METRICS] == p.c[METRICS]
  {
    Shows(h, clone, p.c, METRICS);
  }

  method SetMetrics(h: Heap, next: nat, root: nat, clone: nat, call: Call, ghost p: Pair)
      returns (h2: Heap, next2: nat, failure: Option<Failure>)
    requires Bounded(h, next) && Linked(h, root, clone, p)
    ensures failure == MetricsFailure(p.c) && Bounded(h2, next2)
    ensures Linked(h2, root, clone, if failure.None? then WithMetrics(p, call) else p)
  {
    hide Denotes, Separate, Foot, Tree, Linked;
    h2, next2, failure := h, next, None;
    MetricsShow(h, root, clone, p);
    if METRICS !in h[clone] {
      h2, next2 := SetDefaultMetrics(h, next, root, clone, call, p);
      return;
    }
    if h[clone][METRICS].Leaf? {
      failure := Some(BadMetrics);
      return;
    }
    ghost var m := p.c[METRICS].fields;
    var metrics := h[clone][METRICS].addr;
    Shows(h, metrics, m, METRIC_GENERAL);
    if METRIC_GENERAL !in h[metrics] {
      h2, next2 := SetDefaultMetrics(h, next, root, clone, call, p);
      return;
    }
    if h[metrics][METRIC_GENERAL].Leaf? {
      failure := Some(BadMetricsGeneral);
      return;
    }
    ghost var g := m[METRIC_GENERAL].fields;
    var general := h[metrics][METRIC_GENERAL].addr;
    Shows(h, general, g, ENABLE);
    if ENABLE in h[general] {
      var enabled := h[general][ENABLE] == Leaf(JBool(true));
      var path := JStr(if enabled then call.metricsFile else WILDCARD_PATH);
      h2, next2 := SetMetricsPath(h, next, root, clone, path, call, p);
    } else {
      UnchangedMetrics(p, call);
    }
  }

  lemma UnchangedMetrics(p: Pair, call: Call)
    requires MetricsFailure(p.c).None? && METRICS in p.c && Metrics(MetricsIn(p.c), call) == MetricsIn(p.c)
    requires METRICS in p.t ==> p.t[METRICS] == p.c[METRICS]
    ensures WithMetrics(p, call) == p
  {
  }

  method ModifyRISCVContent(h: Heap, next: nat, root: nat, clone: nat, call: Call, ghost p: Pair)
      returns (h2: Heap, next2: nat, ok: bool)
    requires Bounded(h, next) && Linked(h, root, clone, p)
    ensures ok <==> WithRiscv(p, call).Some?
    ensures Bounded(h2, next2)
    ensures Linked(h2, root, clone, if ok then WithRiscv(p, call).value else p)
  {
    hide Denotes, Separate, Foot, Tree, Linked;
    if Contains(call.pool, "spyre_vf") {
      return h, next, true;
    }
    h2, next2, ok := SetUnder(h, next, root, clone, SNT_MCI, [DCR, MCI_CTRL, ENABLE_RISCV], JStr("0x0"), p);
  }

  /** The three parts in order, on a template and its clone. */
  method Fill(h: Heap, next: nat, root: nat, clone: nat, call: Call, ghost t: Fields)
      returns (h2: Heap, next2: nat, failure: Option<Failure>, ok: bool, ghost p: Pair)
    requires Bounded(h, next) && Linked(h, root, clone, Pair(t, t)) && GeneralOk(t)
    ensures Bounded(h2, next2) && Linked(h2, root, clone, p)
    ensures Generate(t, call) ==
            (if !ok then Panic else if failure.Some? then Error(failure.value) else Content(JObj(p.c)), p.t)
  {
    hide Denotes, Separate, Foot, Tree, Linked;
    h2, next2 := SetGeneral(h, next, root, clone, call, t);
    p := WithGeneral(t, call);
    h2, next2, failure := SetMetrics(h2, next2, root, clone, call, p);
    p := if failure.None? then WithMetrics(p, call) else p;
    h2, next2, ok := ModifyRISCVContent(h2, next2, root, clone, call, p);
    p := if ok then WithRiscv(p, call).value else p;
  }

  class SenlibConfigGenerator {
    var heap: Heap
    var next: nat
    const root: nat
    /** The JSON value the template map denotes at present. */
    ghost var template: Fields

    constructor (heap: Heap, next: nat, root: nat, ghost template: Fields)
      requires Bounded(heap, next) && Tree(heap, Ref(root), JObj(template))
      ensures Valid() && this.template == template
    {
      this.heap, this.next, this.root, this.template := heap, next, root, template;
    }

    ghost predicate Valid()
      reads this
    {
      Bounded(heap, next) && Tree(heap, Ref(root), JObj(template))
    }

    /** Returns what `Generate` says and leaves of the template what `Generate` says, although every write
        goes through a clone that shares the template's nested maps. */
    method GenerateConfigContent(call: Call) returns (r: Outcome)
      requires Valid()
      modifies this
      ensures Valid()
      ensures (r, template) == Generate(old(template), call)
    {
      Shows(heap, root, template, GENERAL);
      var clone := next;
      ghost var t := template;
      if GENERAL !in heap[root] { return Error(NoGeneral); }
      if heap[root][GENERAL].Leaf? { return Error(BadGeneral); }
      var h := heap[clone := heap[root]];
      CloneLinks(heap, h, root, clone, t);
      hide Denotes, Separate, Foot;
      var h2, next2, failure, ok;
      ghost var p;
      h2, next2, failure, ok, p := Fill(h, clone + 1, root, clone, call, t);
      heap, next, template := h2, next2, p.t;
      if !ok { return Panic; }
      if failure.Some? { return Error(failure.value); }
      r := Content(ReadBack(h2, Ref(clone), JObj(p.c)));
    }
  }
}
