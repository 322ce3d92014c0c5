/** Nested Go maps as a heap: every JSON object is a map reached through an address, so two parents can
    share a child. A tree-shaped part of the heap denotes a JSON value; this module says what one write
    through an address does to every value that reaches it. */
module JsonHeap {
  import opened Types

  datatype Json =
    | JNull
    | JBool(b: bool)
    | JNum(n: int)
    | JStr(s: string)
    | JArr(items: seq<Json>)
    | JObj(fields: map<string, Json>)

  type Fields = map<string, Json>

  datatype Value = Leaf(j: Json) | Ref(addr: nat)

  type Heap = map<nat, map<string, Value>>

  predicate Denotes(h: Heap, v: Value, j: Json)
    decreases j
  {
    match j
    case JObj(fields) =>
      && v.Ref? && v.addr in h && h[v.addr].Keys == fields.Keys
      && forall k :: k in fields ==> Denotes(h, h[v.addr][k], fields[k])
    case _ => v == Leaf(j)
  }

  /** The addresses a value is made of. */
  function Foot(h: Heap, v: Value, j: Json): set<nat>
    requires Denotes(h, v, j)
    decreases j
  {
    match j
    case JObj(fields) => {v.addr} + (set k, x | k in fields && x in Foot(h, h[v.addr][k], fields[k]) :: x)
    case _ => {}
  }

  /** No map is reached twice. */
  predicate Separate(h: Heap, v: Value, j: Json)
    requires Denotes(h, v, j)
    decreases j
  {
    match j
    case JObj(fields) =>
      && (forall k :: k in fields ==>
            v.addr !in Foot(h, h[v.addr][k], fields[k]) && Separate(h, h[v.addr][k], fields[k]))
      && (forall k, l :: k in fields && l in fields && k != l ==>
            Foot(h, h[v.addr][k], fields[k]) !! Foot(h, h[v.addr][l], fields[l]))
    case _ => true
  }

  predicate Tree(h: Heap, v: Value, j: Json) {
    Denotes(h, v, j) && Separate(h, v, j)
  }

  predicate SameAt(h: Heap, h2: Heap, xs: set<nat>) {
    forall x :: x in xs ==> x in h && x in h2 && h2[x] == h[x]
  }

  lemma {:induction false} FootInHeap(h: Heap, v: Value, j: Json)
    requires Denotes(h, v, j)
    ensures Foot(h, v, j) <= h.Keys
    decreases j
  {
    if j.JObj? {
      forall k | k in j.fields ensures Foot(h, h[v.addr][k], j.fields[k]) <= h.Keys {
        FootInHeap(h, h[v.addr][k], j.fields[k]);
      }
    }
  }

  /** A value is unaffected by writes outside its footprint. */
  lemma {:induction false} FrameTree(h: Heap, h2: Heap, v: Value, j: Json)
    requires Tree(h, v, j) && SameAt(h, h2, Foot(h, v, j))
    ensures Tree(h2, v, j) && Foot(h2, v, j) == Foot(h, v, j)
    decreases j
  {
    if j.JObj? {
      assert v.addr in Foot(h, v, j);
      forall k | k in j.fields
        ensures Tree(h2, h[v.addr][k], j.fields[k])
        ensures Foot(h2, h[v.addr][k], j.fields[k]) == Foot(h, h[v.addr][k], j.fields[k])
      {
        FrameTree(h, h2, h[v.addr][k], j.fields[k]);
      }
    }
  }

  function ChildFoot(h: Heap, a: nat, fields: Fields, k: string): set<nat>
    requires Denotes(h, Ref(a), JObj(fields))
  {
    if k in fields then Foot(h, h[a][k], fields[k]) else {}
  }

  lemma ChildOf(h: Heap, a: nat, fields: Fields, k: string)
    requires Tree(h, Ref(a), JObj(fields)) && k in fields
    ensures Tree(h, h[a][k], fields[k]) && a !in Foot(h, h[a][k], fields[k])
    ensures Foot(h, h[a][k], fields[k]) <= Foot(h, Ref(a), JObj(fields))
  {
  }

  /** One field of a map replaced, or its child changed in place: the map denotes the object with that
      field updated, provided only the child's own part of the heap was written and the rest is new. */
  lemma ReplaceChild(h: Heap, h2: Heap, a: nat, fields: Fields, k: string, v2: Value, j2: Json)
    requires Tree(h, Ref(a), JObj(fields))
    requires a in h2 && h2[a] == h[a][k := v2]
    requires Tree(h2, v2, j2)
    requires SameAt(h, h2, Foot(h, Ref(a), JObj(fields)) - {a} - ChildFoot(h, a, fields, k))
    requires forall x :: x in Foot(h2, v2, j2) ==> x in ChildFoot(h, a, fields, k) || x !in h
    ensures Tree(h2, Ref(a), JObj(fields[k := j2]))
    ensures forall x :: x in Foot(h2, Ref(a), JObj(fields[k := j2])) ==> x in Foot(h, Ref(a), JObj(fields)) || x !in h
  {
    var fields2 := fields[k := j2];
    FootInHeap(h, Ref(a), JObj(fields));
    forall l | l in fields && l != k
      ensures Tree(h2, h2[a][l], fields[l]) && Foot(h2, h2[a][l], fields[l]) == Foot(h, h[a][l], fields[l])
    {
      OtherChild(h, h2, a, fields, k, l);
    }
    assert Denotes(h2, Ref(a), JObj(fields2));
    forall l | l in fields2 ensures a !in Foot(h2, h2[a][l], fields2[l]) && Separate(h2, h2[a][l], fields2[l]) {
      if k in fields { ChildOf(h, a, fields, k); }
      if l != k { ChildOf(h, a, fields, l); }
    }
    forall l | l in fields && l != k ensures Foot(h2, v2, j2) !! Foot(h, h[a][l], fields[l]) {
      ChildOf(h, a, fields, l);
    }
  }

  lemma OtherChild(h: Heap, h2: Heap, a: nat, fields: Fields, k: string, l: string)
    requires Tree(h, Ref(a), JObj(fields)) && l in fields && l != k
    requires SameAt(h, h2, Foot(h, Ref(a), JObj(fields)) - {a} - ChildFoot(h, a, fields, k))
    ensures Tree(h2, h[a][l], fields[l]) && Foot(h2, h[a][l], fields[l]) == Foot(h, h[a][l], fields[l])
  {
    ChildOf(h, a, fields, l);
    assert Foot(h, h[a][l], fields[l]) !! ChildFoot(h, a, fields, k);
    FrameTree(h, h2, h[a][l], fields[l]);
  }

  // ----- Writing along a path -----

  /** Sets a leaf at a path, creating missing maps on the way; impossible through a non-map. */
  function Put(fields: Fields, path: seq<string>, leaf: Json): Option<Fields>
    requires path != []
    decreases |path|
  {
    if |path| == 1 then Some(fields[path[0] := leaf])
    else
      var child := if path[0] in fields then fields[path[0]] else JObj(map[]);
      if !child.JObj? then None
      else
        match Put(child.fields, path[1..], leaf)
        case None => None
        case Some(updated) => Some(fields[path[0] := JObj(updated)])
  }

  /** Addresses are handed out in order, so `next` is new. */
  predicate Bounded(h: Heap, next: nat) {
    forall a :: a in h ==> a < next
  }

  /** What a write may have done: nothing outside `xs` changed, and no address disappeared. */
  predicate OnlyWrites(h: Heap, h2: Heap, xs: set<nat>) {
    h.Keys <= h2.Keys && forall x :: x in h && x !in xs ==> h2[x] == h[x]
  }

  /** The map at `a` denoted `fields` and now denotes `fields2`; only its own part of the heap and new
      addresses were used. */
  predicate Became(h: Heap, h2: Heap, a: nat, fields: Fields, fields2: Fields)
    requires Tree(h, Ref(a), JObj(fields))
  {
    && Tree(h2, Ref(a), JObj(fields2))
    && (forall x :: x in Foot(h2, Ref(a), JObj(fields2)) ==> x in Foot(h, Ref(a), JObj(fields)) || x !in h)
    && OnlyWrites(h, h2, Foot(h, Ref(a), JObj(fields)))
  }

  lemma PutLeaf(h: Heap, h2: Heap, a: nat, fields: Fields, k: string, leaf: Json)
    requires Tree(h, Ref(a), JObj(fields)) && !leaf.JObj? && h2 == h[a := h[a][k := Leaf(leaf)]]
    ensures Became(h, h2, a, fields, fields[k := leaf])
  {
    FootInHeap(h, Ref(a), JObj(fields));
    ReplaceChild(h, h2, a, fields, k, Leaf(leaf), leaf);
  }

  /** A new empty map under a missing key. */
  lemma PutEmpty(h: Heap, h2: Heap, a: nat, fields: Fields, k: string, n: nat)
    requires Tree(h, Ref(a), JObj(fields)) && k !in fields && n !in h
    requires h2 == h[n := map[]][a := h[a][k := Ref(n)]]
    ensures Became(h, h2, a, fields, fields[k := JObj(map[])])
    ensures h2[a][k] == Ref(n) && Tree(h2, Ref(n), JObj(map[]))
  {
    FootInHeap(h, Ref(a), JObj(fields));
    assert Tree(h2, Ref(n), JObj(map[])) && Foot(h2, Ref(n), JObj(map[])) == {n};
    ReplaceChild(h, h2, a, fields, k, Ref(n), JObj(map[]));
  }

  lemma BecameTwice(h: Heap, h1: Heap, h2: Heap, a: nat, f: Fields, f1: Fields, f2: Fields)
    requires Tree(h, Ref(a), JObj(f)) && Became(h, h1, a, f, f1) && Became(h1, h2, a, f1, f2)
    ensures Became(h, h2, a, f, f2)
  {
  }

  /** A change to the child is a change to the parent at that key. */
  lemma ChildBecame(h: Heap, h2: Heap, a: nat, fields: Fields, k: string, inner: Fields)
    requires Tree(h, Ref(a), JObj(fields)) && k in fields && fields[k].JObj?
    requires h[a][k].Ref? && Tree(h, h[a][k], fields[k]) && Became(h, h2, h[a][k].addr, fields[k].fields, inner)
    ensures Became(h, h2, a, fields, fields[k := JObj(inner)])
  {
    ChildOf(h, a, fields, k);
    FootInHeap(h, Ref(a), JObj(fields));
    ReplaceChild(h, h2, a, fields, k, h[a][k], JObj(inner));
  }

  /** Creating the missing map and then writing below it is one change of the parent. */
  lemma CreatedThenPut(h: Heap, h1: Heap, h2: Heap, a: nat, fields: Fields, k: string, n: nat, inner: Fields)
    requires Tree(h, Ref(a), JObj(fields)) && k !in fields
    requires Became(h, h1, a, fields, fields[k := JObj(map[])])
    requires h1[a][k] == Ref(n) && Tree(h1, Ref(n), JObj(map[])) && Became(h1, h2, n, map[], inner)
    ensures Became(h, h2, a, fields, fields[k := JObj(inner)])
  {
    hide Denotes, Separate, Foot;
    var fields1 := fields[k := JObj(map[])];
    ChildBecame(h1, h2, a, fields1, k, inner);
    assert fields1[k := JObj(inner)] == fields[k := JObj(inner)];
    BecameTwice(h, h1, h2, a, fields, fields1, fields[k := JObj(inner)]);
  }

  /** The nested assignments of the generator: descends from the map at `a`, creating empty maps where
      keys are missing; `ok` is false where Go would panic on a value that is not a map. */
  method SetNested(h: Heap, next: nat, a: nat, path: seq<string>, leaf: Json, ghost fields: Fields)
      returns (h2: Heap, next2: nat, ok: bool)
    requires path != [] && !leaf.JObj? && Bounded(h, next) && Tree(h, Ref(a), JObj(fields))
    ensures ok <==> Put(fields, path, leaf).Some?
    ensures ok ==> Became(h, h2, a, fields, Put(fields, path, leaf).value)
    ensures !ok ==> h2 == h
    ensures Bounded(h2, next2)
    decreases |path|, 1
  {
    var k := path[0];
    if |path| == 1 {
      h2, next2, ok := h[a := h[a][k := Leaf(leaf)]], next, true;
      PutLeaf(h, h2, a, fields, k, leaf);
    } else if k !in h[a] {
      h2, next2, ok := SetInNew(h, next, a, path, leaf, fields);
    } else if h[a][k].Leaf? {
      assert Denotes(h, h[a][k], fields[k]);
      h2, next2, ok := h, next, false;
    } else {
      h2, next2, ok := SetBelow(h, next, a, path, leaf, fields);
    }
  }

  method SetInNew(h: Heap, next: nat, a: nat, path: seq<string>, leaf: Json, ghost fields: Fields)
      returns (h2: Heap, next2: nat, ok: bool)
    requires |path| > 1 && !leaf.JObj? && Bounded(h, next) && Tree(h, Ref(a), JObj(fields))
    requires a in h && path[0] !in h[a] && path[0] !in fields
    ensures ok && Put(fields, path, leaf).Some? && Became(h, h2, a, fields, Put(fields, path, leaf).value)
    ensures Bounded(h2, next2)
    decreases |path|, 0
  {
    hide Denotes, Separate, Foot, Tree, Became;
    var k := path[0];
    var h1 := h[next := map[]][a := h[a][k := Ref(next)]];
    PutEmpty(h, h1, a, fields, k, next);
    EmptyTakesAnyPath(path[1..], leaf);
    h2, next2, ok := SetNested(h1, next + 1, next, path[1..], leaf, map[]);
    CreatedThenPut(h, h1, h2, a, fields, k, next, Put(map[], path[1..], leaf).value);
  }

  method SetBelow(h: Heap, next: nat, a: nat, path: seq<string>, leaf: Json, ghost fields: Fields)
      returns (h2: Heap, next2: nat, ok: bool)
    requires |path| > 1 && !leaf.JObj? && Bounded(h, next) && Tree(h, Ref(a), JObj(fields))
    requires path[0] in h[a] && h[a][path[0]].Ref?
    ensures ok <==> Put(fields, path, leaf).Some?
    ensures ok ==> Became(h, h2, a, fields, Put(fields, path, leaf).value)
    ensures !ok ==> h2 == h
    ensures Bounded(h2, next2)
    decreases |path|, 0
  {
    var k := path[0];
    ChildOf(h, a, fields, k);
    ghost var inner := fields[k].fields;
    h2, next2, ok := SetNested(h, next, h[a][k].addr, path[1..], leaf, inner);
    if ok {
      ChildBecame(h, h2, a, fields, k, Put(inner, path[1..], leaf).value);
    }
  }

  lemma {:induction false} EmptyTakesAnyPath(path: seq<string>, leaf: Json)
    requires path != []
    ensures Put(map[], path, leaf).Some?
    decreases |path|
  {
    if |path| > 1 {
      EmptyTakesAnyPath(path[1..], leaf);
    }
  }
}
