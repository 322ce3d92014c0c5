/** The senlib configuration generator, on JSON values: what one call produces from a template, what it
    leaves of the template, and when the calls before it make no difference. */
module SenlibConfig {
  import opened Strings
  import opened Types
  import opened JsonHeap

  const GENERAL := "GENERAL"
  const METRICS := "METRICS"
  const METRIC_GENERAL := "general"
  const SNT_MCI := "SNT_MCI"
  const DCR := "DCR"
  const MCI_CTRL := "MCI_CTRL"
  const ENABLE_RISCV := "ENABLE_RISCV"
  const BUS_ID := "sen_bus_id"
  const DOOM := "doom"
  const ENABLE := "enable"
  const PATH := "path"
  const WILDCARD_PATH := "metrics.%BUSID"

  /** One call; `metricsFile` is the metrics folder joined with the wildcard file name. */
  datatype Call = Call(pool: string, busIds: seq<string>, metricsFile: string)

  datatype Failure = NoGeneral | BadGeneral | BadMetrics | BadMetricsGeneral

  datatype Outcome = Content(j: Json) | Error(failure: Failure) | Panic

  predicate VfMode(call: Call) {
    Contains(call.pool, "spyre_vf")
  }

  function BusIds(ids: seq<string>): Json {
    JArr(seq(|ids|, i requires 0 <= i < |ids| => JStr(ids[i])))
  }

  // ----- The three parts a call writes -----

  function General(g: Fields, call: Call): Fields {
    g[BUS_ID := BusIds(call.busIds)][DOOM := JBool(!Contains(call.pool, "spyre_pf"))]
  }

  function MetricsFailure(t: Fields): Option<Failure> {
    if METRICS !in t then None
    else if !t[METRICS].JObj? then Some(BadMetrics)
    else if METRIC_GENERAL in t[METRICS].fields && !t[METRICS].fields[METRIC_GENERAL].JObj? then Some(BadMetricsGeneral)
    else None
  }

  function MetricsPath(g: Fields, call: Call): Json
    requires ENABLE in g
  {
    JStr(if g[ENABLE] == JBool(true) then call.metricsFile else WILDCARD_PATH)
  }

  const DEFAULT_METRICS: Fields := map[ENABLE := JBool(false), PATH := JStr(WILDCARD_PATH)]

  function Metrics(m: Fields, call: Call): Fields
    requires METRIC_GENERAL in m ==> m[METRIC_GENERAL].JObj?
  {
    if METRIC_GENERAL !in m then m[METRIC_GENERAL := JObj(DEFAULT_METRICS)]
    else
      var g := m[METRIC_GENERAL].fields;
      if ENABLE in g then m[METRIC_GENERAL := JObj(g[PATH := MetricsPath(g, call)])] else m
  }

  /** The switch for RISC-V below `SNT_MCI`; impossible when something on the way is not a map. */
  function Riscv(j: Json): Option<Json> {
    if !j.JObj? then None
    else
      match Put(j.fields, [DCR, MCI_CTRL, ENABLE_RISCV], JStr("0x0"))
      case None => None
      case Some(fields) => Some(JObj(fields))
  }

  // ----- One call -----

  /** The template and its shallow clone during a call. Keys of the template are shared by the clone, so
      a write below one of them shows in both; a key the template lacks is the clone's own. */
  datatype Pair = Pair(t: Fields, c: Fields)

  function SetKey(p: Pair, key: string, j: Json): Pair {
    Pair(if key in p.t then p.t[key := j] else p.t, p.c[key := j])
  }

  predicate GeneralOk(t: Fields) {
    GENERAL in t && t[GENERAL].JObj?
  }

  function WithGeneral(t: Fields, call: Call): Pair
    requires GeneralOk(t)
  {
    SetKey(Pair(t, t), GENERAL, JObj(General(t[GENERAL].fields, call)))
  }

  function WithMetrics(p: Pair, call: Call): Pair
    requires MetricsFailure(p.c).None?
  {
    var m := if METRICS in p.c then p.c[METRICS].fields else map[];
    SetKey(p, METRICS, JObj(Metrics(m, call)))
  }

  function WithRiscv(p: Pair, call: Call): Option<Pair> {
    if VfMode(call) then Some(p)
    else
      match Riscv(if SNT_MCI in p.c then p.c[SNT_MCI] else JObj(map[]))
      case None => None
      case Some(j) => Some(SetKey(p, SNT_MCI, j))
  }

  /** What a call returns, and what it leaves of the template. */
  function Generate(t: Fields, call: Call): (Outcome, Fields) {
    if GENERAL !in t then (Error(NoGeneral), t)
    else if !t[GENERAL].JObj? then (Error(BadGeneral), t)
    else
      var p := WithGeneral(t, call);
      var failure := MetricsFailure(p.c);
      var q := if failure.None? then WithMetrics(p, call) else p;
      match WithRiscv(q, call)
      case None => (Panic, q.t)
      case Some(r) => (if failure.Some? then Error(failure.value) else Content(JObj(r.c)), r.t)
  }

  function Out(t: Fields, call: Call): Outcome { Generate(t, call).0 }

  function Left(t: Fields, call: Call): Fields { Generate(t, call).1 }

  function LeftByAll(t: Fields, calls: seq<Call>): Fields {
    if calls == [] then t else Left(LeftByAll(t, calls[..|calls| - 1]), calls[|calls| - 1])
  }

  // ----- What a configuration says -----

  /** The array holds exactly these strings, in order. */
  predicate ArrayOf(j: Json, ids: seq<string>) {
    j.JArr? && |j.items| == |ids| && forall i :: 0 <= i < |ids| ==> j.items[i] == JStr(ids[i])
  }

  /** On success the bus IDs read back are the ones passed in, the mode switches are those of the pool,
      and nothing but the three written parts differs from the template. */
  lemma ContentSays(t: Fields, call: Call)
    requires Out(t, call).Content?
    ensures var j, vf := Out(t, call).j, Contains(call.pool, "spyre_vf");
            && j.JObj? && "GENERAL" in j.fields && j.fields["GENERAL"].JObj?
            && "GENERAL" in t && t["GENERAL"].JObj?
            && (var g := j.fields["GENERAL"].fields;
                && "sen_bus_id" in g && ArrayOf(g["sen_bus_id"], call.busIds)
                && "doom" in g && g["doom"] == JBool(!Contains(call.pool, "spyre_pf"))
                && g - {"sen_bus_id", "doom"} == t["GENERAL"].fields - {"sen_bus_id", "doom"})
            && "METRICS" in j.fields
            && (vf ==> ("SNT_MCI" in j.fields <==> "SNT_MCI" in t))
            && (vf && "SNT_MCI" in t ==> j.fields["SNT_MCI"] == t["SNT_MCI"])
            && (!vf ==> SNT_MCI in j.fields && Riscv(j.fields[SNT_MCI]) == Some(j.fields[SNT_MCI]))
            && (forall k :: k !in {"GENERAL", "METRICS", "SNT_MCI"} ==>
                  (k in j.fields <==> k in t) && (k in t ==> j.fields[k] == t[k]))
  {
    if !VfMode(call) {
      RiscvTwice(if SNT_MCI in t then t[SNT_MCI] else JObj(map[]));
    }
  }

  /** A map below a key, empty if there is none. */
  function Below(f: Fields, k: string): Fields {
    if k in f && f[k].JObj? then f[k].fields else map[]
  }

  /** The map below the key is there and equals the old one but for one key. */
  predicate OnlyKeyDiffers(f: Fields, template: Fields, k: string, inner: string) {
    k in f && f[k].JObj? && f[k].fields - {inner} == Below(template, k) - {inner}
  }

  /** On success in PF mode RISC-V is switched off below `SNT_MCI`, and all else there is the template's. */
  lemma ContentSaysRiscv(t: Fields, call: Call)
    requires Out(t, call).Content? && !Contains(call.pool, "spyre_vf")
    ensures var f := Out(t, call).j.fields;
            && OnlyKeyDiffers(f, t, "SNT_MCI", "DCR")
            && OnlyKeyDiffers(Below(f, "SNT_MCI"), Below(t, "SNT_MCI"), "DCR", "MCI_CTRL")
            && (var d, d0 := Below(Below(f, "SNT_MCI"), "DCR"), Below(Below(t, "SNT_MCI"), "DCR");
                && OnlyKeyDiffers(d, d0, "MCI_CTRL", "ENABLE_RISCV")
                && "ENABLE_RISCV" in Below(d, "MCI_CTRL") && Below(d, "MCI_CTRL")["ENABLE_RISCV"] == JStr("0x0"))
  {
    OutForm(t, call);
    assert Below(t, SNT_MCI) == ChildOr(t, SNT_MCI).fields;
    assert Out(t, call).j.fields[SNT_MCI] == Riscv(ChildOr(t, SNT_MCI)).value;
    RiscvSays(Below(t, SNT_MCI));
  }

  lemma RiscvSays(f: Fields)
    requires Riscv(JObj(f)).Some?
    ensures var j := Riscv(JObj(f)).value;
            && j.JObj? && j.fields - {"DCR"} == f - {"DCR"}
            && OnlyKeyDiffers(j.fields, f, "DCR", "MCI_CTRL")
            && (var d, d0 := Below(j.fields, "DCR"), Below(f, "DCR");
                && OnlyKeyDiffers(d, d0, "MCI_CTRL", "ENABLE_RISCV")
                && "ENABLE_RISCV" in Below(d, "MCI_CTRL") && Below(d, "MCI_CTRL")["ENABLE_RISCV"] == JStr("0x0"))
  {
    RiscvForm(f);
  }

  /** Something on the way to the switch is there and is not a map. */
  predicate Blocked(t: Fields) {
    "SNT_MCI" in t &&
    (!t["SNT_MCI"].JObj? ||
     (var s := t["SNT_MCI"].fields;
      "DCR" in s && (!s["DCR"].JObj? || ("MCI_CTRL" in s["DCR"].fields && !s["DCR"].fields["MCI_CTRL"].JObj?))))
  }

  /** Which templates and pools lead to which outcome; a blocked switch panics before any error is returned. */
  lemma OutcomeSays(t: Fields, call: Call)
    ensures Out(t, call) == Error(NoGeneral) <==> "GENERAL" !in t
    ensures Out(t, call) == Error(BadGeneral) <==> "GENERAL" in t && !t["GENERAL"].JObj?
    ensures "GENERAL" in t && t["GENERAL"].JObj? ==>
              var panics := !Contains(call.pool, "spyre_vf") && Blocked(t);
              var badMetrics := "METRICS" in t && !t["METRICS"].JObj?;
              var badGeneral := "METRICS" in t && t["METRICS"].JObj? && "general" in t["METRICS"].fields
                                && !t["METRICS"].fields["general"].JObj?;
              && (Out(t, call) == Panic <==> panics)
              && (Out(t, call) == Error(BadMetrics) <==> !panics && badMetrics)
              && (Out(t, call) == Error(BadMetricsGeneral) <==> !panics && badGeneral)
              && (Out(t, call).Content? <==> !panics && !badMetrics && !badGeneral)
  {
    if GeneralOk(t) {
      OutForm(t, call);
      if ChildOr(t, SNT_MCI).JObj? {
        RiscvForm(ChildOr(t, SNT_MCI).fields);
      }
    }
  }

  /** On success the metrics path is the pool's file exactly when the template enables metrics; a template
      without the section, or without its general part, gets it switched off. */
  lemma ContentSaysMetrics(t: Fields, call: Call)
    requires Out(t, call).Content?
    ensures "METRICS" in t ==> t["METRICS"].JObj?
    ensures var m := Out(t, call).j.fields["METRICS"];
            && m.JObj? && "general" in m.fields && m.fields["general"].JObj?
            && (var g := m.fields["general"].fields;
                && ("enable" in g ==>
                      "path" in g && g["path"] == JStr(if g["enable"] == JBool(true) then call.metricsFile else "metrics.%BUSID"))
                && ("METRICS" !in t || "general" !in t["METRICS"].fields ==>
                      g == map["enable" := JBool(false), "path" := JStr("metrics.%BUSID")])
                && ("METRICS" in t && "general" in t["METRICS"].fields && t["METRICS"].fields["general"].JObj? ==>
                      var g0 := t["METRICS"].fields["general"].fields;
                      if "enable" in g0 then g - {"path"} == g0 - {"path"} else g == g0)
                && ("METRICS" in t ==> m.fields - {"general"} == t["METRICS"].fields - {"general"}))
  {
    ContentSays(t, call);
    OutForm(t, call);
  }

  lemma PutStep(f: Fields, k: string, rest: seq<string>, leaf: Json)
    requires rest != []
    ensures Put(f, [k] + rest, leaf) ==
            var child := if k in f then f[k] else JObj(map[]);
            if !child.JObj? || Put(child.fields, rest, leaf).None? then None
            else Some(f[k := JObj(Put(child.fields, rest, leaf).value)])
  {
  }

  function ChildOr(f: Fields, k: string): Json {
    if k in f then f[k] else JObj(map[])
  }

  /** The result of `Put` along the three keys, spelled out. */
  lemma RiscvForm(f: Fields)
    ensures var d := ChildOr(f, DCR);
            if !d.JObj? || !ChildOr(d.fields, MCI_CTRL).JObj? then Riscv(JObj(f)).None?
            else Riscv(JObj(f)) ==
                 Some(JObj(f[DCR := JObj(d.fields[MCI_CTRL := JObj(ChildOr(d.fields, MCI_CTRL).fields[ENABLE_RISCV := JStr("0x0")])])]))
  {
    var leaf := JStr("0x0");
    assert [DCR, MCI_CTRL, ENABLE_RISCV] == [DCR] + [MCI_CTRL, ENABLE_RISCV];
    PutStep(f, DCR, [MCI_CTRL, ENABLE_RISCV], leaf);
    var d := ChildOr(f, DCR);
    if d.JObj? {
      assert [MCI_CTRL, ENABLE_RISCV] == [MCI_CTRL] + [ENABLE_RISCV];
      PutStep(d.fields, MCI_CTRL, [ENABLE_RISCV], leaf);
    }
  }

  /** Setting the switch again changes nothing. */
  lemma RiscvTwice(j: Json)
    requires Riscv(j).Some?
    ensures Riscv(Riscv(j).value) == Riscv(j)
  {
    var f := j.fields;
    RiscvForm(f);
    var d := ChildOr(f, DCR).fields;
    var c := ChildOr(d, MCI_CTRL).fields[ENABLE_RISCV := JStr("0x0")];
    var d' := d[MCI_CTRL := JObj(c)];
    var f' := f[DCR := JObj(d')];
    RiscvForm(f');
    assert c[ENABLE_RISCV := JStr("0x0")] == c && d'[MCI_CTRL := JObj(c)] == d' && f'[DCR := JObj(d')] == f';
  }

  // ----- Earlier calls -----

  /** Templates whose calls do not influence one another: those no call succeeds on, those without the
      RISC-V section, and those where that section cannot be or already is what a PF call makes of it. */
  predicate HistoryFree(t: Fields) {
    || !GeneralOk(t) || MetricsFailure(t).Some?
    || SNT_MCI !in t || Riscv(t[SNT_MCI]).None? || Riscv(t[SNT_MCI]) == Some(t[SNT_MCI])
  }

  lemma LeftForm(t: Fields, call: Call)
    requires GeneralOk(t)
    ensures var l := Left(t, call);
            && l.Keys == t.Keys
            && l[GENERAL] == JObj(General(t[GENERAL].fields, call))
            && (METRICS in t ==> l[METRICS] == if MetricsFailure(t).None? then JObj(Metrics(t[METRICS].fields, call)) else t[METRICS])
            && (SNT_MCI in t ==> l[SNT_MCI] == if VfMode(call) || Riscv(t[SNT_MCI]).None? then t[SNT_MCI] else Riscv(t[SNT_MCI]).value)
            && (forall k :: k in t && k !in {GENERAL, METRICS, SNT_MCI} ==> l[k] == t[k])
  {
  }

  lemma MetricsTwice(m: Fields, a: Call, b: Call)
    requires METRIC_GENERAL in m ==> m[METRIC_GENERAL].JObj?
    ensures METRIC_GENERAL in Metrics(m, a) ==> Metrics(m, a)[METRIC_GENERAL].JObj?
    ensures Metrics(Metrics(m, a), b) == Metrics(m, b)
  {
    if METRIC_GENERAL !in m {
      assert DEFAULT_METRICS[PATH := JStr(WILDCARD_PATH)] == DEFAULT_METRICS;
    } else {
      var g := m[METRIC_GENERAL].fields;
      if ENABLE in g {
        var g' := g[PATH := MetricsPath(g, a)];
        assert g'[ENABLE] == g[ENABLE];
        assert g'[PATH := MetricsPath(g, b)] == g[PATH := MetricsPath(g, b)];
      }
    }
  }

  lemma LeftKeepsShape(t: Fields, a: Call)
    ensures MetricsFailure(Left(t, a)) == MetricsFailure(t) && (GeneralOk(Left(t, a)) <==> GeneralOk(t))
  {
    if GeneralOk(t) {
      LeftForm(t, a);
      if METRICS in t && MetricsFailure(t).None? {
        MetricsTwice(t[METRICS].fields, a, a);
      }
    }
  }

  /** One earlier call makes no difference, and leaves a template of the same kind. */
  lemma OneEarlierCall(t: Fields, a: Call, b: Call)
    requires HistoryFree(t)
    ensures HistoryFree(Left(t, a)) && Out(Left(t, a), b) == Out(t, b)
  {
    LeftKeepsShape(t, a);
    if GeneralOk(t) {
      LeftForm(t, a);
      if SNT_MCI in t && Riscv(t[SNT_MCI]).Some? { RiscvTwice(t[SNT_MCI]); }
      var l := Left(t, a);
      SameParts(t, l, a, b);
    }
  }

  function MetricsIn(t: Fields): Fields {
    if METRICS in t && t[METRICS].JObj? then t[METRICS].fields else map[]
  }

  predicate RiscvFails(t: Fields, call: Call) {
    !VfMode(call) && Riscv(ChildOr(t, SNT_MCI)).None?
  }

  /** The whole configuration a successful call returns. */
  function Configured(t: Fields, call: Call): Fields
    requires GeneralOk(t) && MetricsFailure(t).None? && !RiscvFails(t, call)
  {
    var c := t[GENERAL := JObj(General(t[GENERAL].fields, call))][METRICS := JObj(Metrics(MetricsIn(t), call))];
    if VfMode(call) then c else c[SNT_MCI := Riscv(ChildOr(t, SNT_MCI)).value]
  }

  lemma OutForm(t: Fields, call: Call)
    requires GeneralOk(t)
    ensures Out(t, call) ==
            if RiscvFails(t, call) then Panic
            else if MetricsFailure(t).Some? then Error(MetricsFailure(t).value)
            else Content(JObj(Configured(t, call)))
  {
  }

  lemma SameMetrics(t: Fields, l: Fields, a: Call, b: Call)
    requires MetricsFailure(t).None? && MetricsFailure(l).None? && (METRICS in t <==> METRICS in l)
    requires METRICS in t ==> l[METRICS] == JObj(Metrics(t[METRICS].fields, a))
    ensures Metrics(MetricsIn(l), b) == Metrics(MetricsIn(t), b)
  {
    if METRICS in t { MetricsTwice(t[METRICS].fields, a, b); }
  }

  /** Two templates that differ only in what a call overwrites are configured alike. */
  lemma SameConfigured(t: Fields, l: Fields, a: Call, b: Call)
    requires GeneralOk(t) && MetricsFailure(t).None? && !RiscvFails(t, b)
    requires GeneralOk(l) && MetricsFailure(l).None? && !RiscvFails(l, b)
    requires l.Keys == t.Keys && l[GENERAL] == JObj(General(t[GENERAL].fields, a))
    requires METRICS in t ==> l[METRICS] == JObj(Metrics(t[METRICS].fields, a))
    requires forall k :: k in t && k !in {GENERAL, METRICS} ==> l[k] == t[k]
    ensures Configured(l, b) == Configured(t, b)
  {
    assert General(General(t[GENERAL].fields, a), b) == General(t[GENERAL].fields, b);
    SameMetrics(t, l, a, b);
    assert ChildOr(l, SNT_MCI) == ChildOr(t, SNT_MCI);
    var g, m := JObj(General(t[GENERAL].fields, b)), JObj(Metrics(MetricsIn(t), b));
    assert l[GENERAL := g][METRICS := m] == t[GENERAL := g][METRICS := m];
  }

  lemma SameParts(t: Fields, l: Fields, a: Call, b: Call)
    requires GeneralOk(t) && GeneralOk(l) && HistoryFree(t) && l == Left(t, a)
    requires MetricsFailure(l) == MetricsFailure(t)
    ensures Out(l, b) == Out(t, b)
  {
    LeftForm(t, a);
    OutForm(t, b);
    OutForm(l, b);
    if SNT_MCI in t && Riscv(t[SNT_MCI]).Some? { RiscvTwice(t[SNT_MCI]); }
    assert RiscvFails(l, b) == RiscvFails(t, b);
    if !RiscvFails(t, b) && MetricsFailure(t).None? {
      SameConfigured(t, l, a, b);
    }
  }

  /** A VF call hands out the RISC-V section as it finds it. */
  lemma VfShowsRiscv(t: Fields, l: Fields, vf: Call)
    requires GeneralOk(t) && GeneralOk(l) && MetricsFailure(t).None? && MetricsFailure(l).None? && VfMode(vf)
    requires SNT_MCI in t && SNT_MCI in l && t[SNT_MCI] != l[SNT_MCI]
    ensures Out(t, vf) != Out(l, vf)
  {
    OutForm(t, vf);
    OutForm(l, vf);
    assert Configured(t, vf)[SNT_MCI] == t[SNT_MCI] && Configured(l, vf)[SNT_MCI] == l[SNT_MCI];
  }

  /** Otherwise a VF call answers differently after a PF call. */
  lemma HistoryShows(t: Fields)
    requires !HistoryFree(t)
    ensures exists calls, call :: Out(LeftByAll(t, calls), call) != Out(t, call)
  {
    var pf, vf := Call("spyre_pf", [], ""), Call("spyre_vf", [], "");
    PoolModes();
    LeftForm(t, pf);
    LeftKeepsShape(t, pf);
    var l := Left(t, pf);
    VfShowsRiscv(t, l, vf);
    assert LeftByAll(t, [pf]) == l by { assert [pf][..0] == []; }
    assert Out(LeftByAll(t, [pf]), vf) != Out(t, vf);
  }

  /** Over any sequence of calls through the shared template, every call returns what it would return
      from a fresh template, exactly when the template is history-free; in particular whenever it has no
      `SNT_MCI` key. */
  lemma CallsAreIndependent(t: Fields)
    ensures HistoryFree(t) <==> forall calls, call :: Out(LeftByAll(t, calls), call) == Out(t, call)
    ensures SNT_MCI !in t ==> HistoryFree(t)
  {
    if HistoryFree(t) {
      forall calls, call ensures Out(LeftByAll(t, calls), call) == Out(t, call) {
        EarlierCalls(t, calls, call);
      }
    } else {
      HistoryShows(t);
    }
  }

  lemma {:induction false} EarlierCalls(t: Fields, calls: seq<Call>, call: Call)
    requires HistoryFree(t)
    ensures HistoryFree(LeftByAll(t, calls)) && Out(LeftByAll(t, calls), call) == Out(t, call)
  {
    if calls != [] {
      var before := LeftByAll(t, calls[..|calls| - 1]);
      EarlierCalls(t, calls[..|calls| - 1], call);
      OneEarlierCall(before, calls[|calls| - 1], call);
    }
  }

  lemma PoolModes()
    ensures !Contains("spyre_pf", "spyre_vf") && Contains("spyre_vf", "spyre_vf")
  {
    var pf, vf := "spyre_pf", "spyre_vf";
    assert vf[0..] == vf && pf[0..] == pf;
    assert vf[6] != pf[6];
    forall i | 0 <= i <= |pf| ensures !(vf <= pf[i..]) { }
  }
}
