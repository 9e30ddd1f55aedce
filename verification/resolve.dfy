/**
 * `get_getters` and `get_setters`: walk the tree, give every unset getter (or setter) field
 * a generated callback name, write that name into the model, and report the generated
 * names in a dictionary from name to field. Both walks are one function here,
 * parameterised by the set of field names they look after.
 */
module Resolve {
  import opened Wrappers
  import opened OrderedDict
  import opened Kinds
  import opened Nodes

  /** The module name a walk uses when none is given; children are always walked with it. */
  const DefaultModule: string := "xlribbon"

  /** The callback name generated for field `field` of the control `id`: `module.id_field`. */
  function GenName(modName: string, id: string, field: string): (r: string)
    ensures |r| == |modName| + |id| + |field| + 2
    ensures r[..|modName|] == modName && r[|modName|] == '.'
    ensures r[|modName| + 1..|modName| + 1 + |id|] == id && r[|modName| + 1 + |id|] == '_'
    ensures r[|r| - |field|..] == field
  {
    modName + "." + id + "_" + field
  }

  /**
   * The (generated name, field) pairs one node records, in field declaration order: one
   * for each target field it declares and leaves unset.
   */
  function OwnSlots(names: seq<string>, vals: seq<Option<string>>, modName: string, id: string, targets: set<string>)
    : seq<(string, string)>
    requires |names| == |vals|
    decreases |names|
  {
    if |names| == 0 then []
    else
      (if names[0] in targets && vals[0].None? then [(GenName(modName, id, names[0]), names[0])] else [])
      + OwnSlots(names[1..], vals[1..], modName, id, targets)
  }

  /** One node's fields after the walk has written the generated names into it. */
  function Filled(names: seq<string>, vals: seq<Option<string>>, modName: string, id: string, targets: set<string>)
    : (r: seq<Option<string>>)
    requires |names| == |vals|
    ensures |r| == |vals|
    ensures forall i :: 0 <= i < |r| && vals[i].Some? ==> r[i] == vals[i]
    ensures forall i :: 0 <= i < |r| && names[i] !in targets ==> r[i] == vals[i]
    ensures forall i :: 0 <= i < |r| && names[i] in targets ==> r[i].Some?
    ensures forall i :: 0 <= i < |r| && names[i] in targets && vals[i].None? ==> r[i] == Some(GenName(modName, id, names[i]))
  {
    seq(|vals|, i requires 0 <= i < |vals| =>
      if names[i] in targets && vals[i].None? then Some(GenName(modName, id, names[i])) else vals[i])
  }

  /**
   * The walk over one node: the node with its own target fields filled, then its children
   * walked in order with the default module name, each child's dictionary merged into the
   * node's own with `dict.update` (a later entry for a key replaces an earlier one in
   * place).
   */
  function Resolve(n: Node, modName: string, targets: set<string>): (r: (Node, Dict))
    requires Shaped(n)
    ensures Shaped(r.0)
    ensures r.0.kind == n.kind && r.0.id == n.id && |r.0.children| == |n.children|
    ensures forall i :: 0 <= i < |n.attrs| && n.attrs[i].Some? ==> r.0.attrs[i] == n.attrs[i]
    ensures forall i :: 0 <= i < |n.attrs| && FieldNames(n.kind)[i] !in targets ==> r.0.attrs[i] == n.attrs[i]
    ensures forall i :: 0 <= i < |n.attrs| && FieldNames(n.kind)[i] in targets && n.attrs[i].None? ==>
      r.0.attrs[i] == Some(GenName(modName, n.id, FieldNames(n.kind)[i]))
    decreases n
  {
    var own := FromLog(OwnSlots(FieldNames(n.kind), n.attrs, modName, n.id, targets));
    var (kids, d) := ResolveAll(n.children, targets, own);
    (Node(n.kind, n.id, Filled(FieldNames(n.kind), n.attrs, modName, n.id, targets), kids), d)
  }

  /** Walks the children in order, merging each one's dictionary into `acc`. */
  function ResolveAll(cs: seq<Node>, targets: set<string>, acc: Dict): (r: (seq<Node>, Dict))
    requires forall i :: 0 <= i < |cs| ==> Shaped(cs[i])
    ensures |r.0| == |cs|
    ensures forall i :: 0 <= i < |cs| ==> Shaped(r.0[i]) && r.0[i].kind == cs[i].kind && r.0[i].id == cs[i].id
    decreases cs
  {
    if |cs| == 0 then ([], acc)
    else
      var (c, dc) := Resolve(cs[0], DefaultModule, targets);
      var (rest, d) := ResolveAll(cs[1..], targets, PutAll(acc, dc));
      ConsAlike(cs, c, rest);
      ([c] + rest, d)
  }

  /** Putting a walked head before the walked tail lines the results up with the inputs. */
  lemma ConsAlike(cs: seq<Node>, c: Node, rest: seq<Node>)
    requires |cs| > 0 && |rest| == |cs| - 1
    requires Shaped(c) && c.kind == cs[0].kind && c.id == cs[0].id
    requires forall i :: 0 <= i < |rest| ==> Shaped(rest[i]) && rest[i].kind == cs[1..][i].kind && rest[i].id == cs[1..][i].id
    ensures forall i :: 0 <= i < |cs| ==> Shaped(([c] + rest)[i]) && ([c] + rest)[i].kind == cs[i].kind && ([c] + rest)[i].id == cs[i].id
  {
    var r := [c] + rest;
    forall i | 0 <= i < |cs| ensures Shaped(r[i]) && r[i].kind == cs[i].kind && r[i].id == cs[i].id {
      if i > 0 {
        var x, y := rest[i - 1], cs[1..][i - 1];
        assert r[i] == x && y == cs[i];
        assert Shaped(x) && x.kind == y.kind && x.id == y.id;
      }
    }
  }

  /** `get_getters(module_name)`. */
  function Getters(n: Node, modName: string): (r: (Node, Dict))
    requires Shaped(n)
    ensures Shaped(r.0) && r.0.kind == n.kind && r.0.id == n.id
  {
    Resolve(n, modName, GetterFields)
  }

  /** `get_setters(module_name)`. */
  function Setters(n: Node, modName: string): (r: (Node, Dict))
    requires Shaped(n)
    ensures Shaped(r.0) && r.0.kind == n.kind && r.0.id == n.id
  {
    Resolve(n, modName, SetterFields)
  }

  /**
   * Every record the walk makes, in the order it makes them: the node's own, then those
   * of each child's subtree.
   */
  function Slots(n: Node, modName: string, targets: set<string>): seq<(string, string)>
    requires Shaped(n)
    decreases n
  {
    OwnSlots(FieldNames(n.kind), n.attrs, modName, n.id, targets) + SlotsAll(n.children, targets)
  }

  function SlotsAll(cs: seq<Node>, targets: set<string>): seq<(string, string)>
    requires forall i :: 0 <= i < |cs| ==> Shaped(cs[i])
    decreases cs
  {
    if |cs| == 0 then [] else Slots(cs[0], DefaultModule, targets) + SlotsAll(cs[1..], targets)
  }

  /** No node of the tree leaves a target field unset. */
  predicate Settled(n: Node, targets: set<string>)
    decreases n
  {
    && (forall i :: 0 <= i < |n.attrs| && i < |FieldNames(n.kind)| && FieldNames(n.kind)[i] in targets ==> n.attrs[i].Some?)
    && forall i :: 0 <= i < |n.children| ==> Settled(n.children[i], targets)
  }

  // ---------------------------------------------------------------------------------------
  // The dictionary is the record log merged key by key

  /** The returned dictionary is the walk's log of records merged in order. */
  lemma {:induction false} ResolveLog(n: Node, modName: string, targets: set<string>)
    requires Shaped(n)
    ensures Resolve(n, modName, targets).1 == FromLog(Slots(n, modName, targets))
    decreases n
  {
    var own := OwnSlots(FieldNames(n.kind), n.attrs, modName, n.id, targets);
    ResolveAllLog(n.children, targets, FromLog(own));
    UpdateFromLog([], own);
    PutAllAppend([], own, SlotsAll(n.children, targets));
  }

  lemma {:induction false} ResolveAllLog(cs: seq<Node>, targets: set<string>, acc: Dict)
    requires forall i :: 0 <= i < |cs| ==> Shaped(cs[i])
    ensures ResolveAll(cs, targets, acc).1 == PutAll(acc, SlotsAll(cs, targets))
    decreases cs
  {
    if |cs| > 0 {
      var l := Slots(cs[0], DefaultModule, targets);
      ResolveLog(cs[0], DefaultModule, targets);
      ResolveAllLog(cs[1..], targets, PutAll(acc, FromLog(l)));
      UpdateFromLog(acc, l);
      PutAllAppend(acc, l, SlotsAll(cs[1..], targets));
    }
  }

  /** Each child is walked on its own, whatever has been gathered before it. */
  lemma {:induction false} ResolveAllAt(cs: seq<Node>, targets: set<string>, acc: Dict, i: nat)
    requires forall j :: 0 <= j < |cs| ==> Shaped(cs[j])
    requires i < |cs|
    ensures ResolveAll(cs, targets, acc).0[i] == Resolve(cs[i], DefaultModule, targets).0
    decreases cs
  {
    if i > 0 {
      var dc := Resolve(cs[0], DefaultModule, targets).1;
      ResolveAllAt(cs[1..], targets, PutAll(acc, dc), i - 1);
    }
  }

  // ---------------------------------------------------------------------------------------
  // Settling: after one walk there is nothing left to fill

  lemma {:induction false} OwnSlotsSettled(names: seq<string>, vals: seq<Option<string>>, modName: string, id: string, targets: set<string>)
    requires |names| == |vals|
    requires forall i :: 0 <= i < |names| && names[i] in targets ==> vals[i].Some?
    ensures OwnSlots(names, vals, modName, id, targets) == []
    decreases |names|
  {
    if |names| > 0 {
      assert forall i :: 0 <= i < |names[1..]| && names[1..][i] in targets ==> vals[1..][i].Some? by {
        forall i | 0 <= i < |names[1..]| && names[1..][i] in targets ensures vals[1..][i].Some? {
          assert names[1..][i] == names[i + 1] && vals[1..][i] == vals[i + 1];
        }
      }
      OwnSlotsSettled(names[1..], vals[1..], modName, id, targets);
    }
  }

  /** After the walk every target field of every node is set. */
  lemma {:induction false} ResolveSettles(n: Node, modName: string, targets: set<string>)
    requires Shaped(n)
    ensures Settled(Resolve(n, modName, targets).0, targets)
    decreases n
  {
    var own := FromLog(OwnSlots(FieldNames(n.kind), n.attrs, modName, n.id, targets));
    var r := Resolve(n, modName, targets).0;
    assert r.children == ResolveAll(n.children, targets, own).0;
    forall i | 0 <= i < |r.children| ensures Settled(r.children[i], targets) {
      ResolveAllAt(n.children, targets, own, i);
      ResolveSettles(n.children[i], DefaultModule, targets);
    }
  }

  /** A tree with nothing left to fill comes back unchanged, with an empty dictionary. */
  lemma {:induction false} ResolveSettled(n: Node, modName: string, targets: set<string>)
    requires Shaped(n) && Settled(n, targets)
    ensures Resolve(n, modName, targets) == (n, [])
    decreases n
  {
    var names := FieldNames(n.kind);
    OwnSlotsSettled(names, n.attrs, modName, n.id, targets);
    assert FromLog([]) == [];
    ResolveAllSettled(n.children, targets, []);
    assert Filled(names, n.attrs, modName, n.id, targets) == n.attrs;
  }

  lemma {:induction false} ResolveAllSettled(cs: seq<Node>, targets: set<string>, acc: Dict)
    requires forall i :: 0 <= i < |cs| ==> Shaped(cs[i]) && Settled(cs[i], targets)
    ensures ResolveAll(cs, targets, acc) == (cs, acc)
    decreases cs
  {
    if |cs| > 0 {
      ResolveSettled(cs[0], DefaultModule, targets);
      SettledTail(cs, targets);
      ResolveAllSettled(cs[1..], targets, acc);
      ResolveAllCons(cs, targets, acc);
      assert PutAll(acc, []) == acc;
      HeadTail(cs);
    }
  }

  lemma HeadTail<T>(s: seq<T>)
    requires |s| > 0
    ensures [s[0]] + s[1..] == s
  {
  }

  lemma SettledTail(cs: seq<Node>, targets: set<string>)
    requires |cs| > 0 && forall i :: 0 <= i < |cs| ==> Shaped(cs[i]) && Settled(cs[i], targets)
    ensures forall i :: 0 <= i < |cs| - 1 ==> Shaped(cs[1..][i]) && Settled(cs[1..][i], targets)
  {
    forall i | 0 <= i < |cs| - 1 ensures Shaped(cs[1..][i]) && Settled(cs[1..][i], targets) {
      assert cs[1..][i] == cs[i + 1];
    }
  }

  lemma ResolveAllCons(cs: seq<Node>, targets: set<string>, acc: Dict)
    requires forall i :: 0 <= i < |cs| ==> Shaped(cs[i])
    requires |cs| > 0
    ensures var c := Resolve(cs[0], DefaultModule, targets);
      var rest := ResolveAll(cs[1..], targets, PutAll(acc, c.1));
      ResolveAll(cs, targets, acc) == ([c.0] + rest.0, rest.1)
  {
  }

  /**
   * Walking a second time changes nothing and reports nothing, whatever module name the
   * second walk is given.
   */
  lemma ResolveIdempotent(n: Node, modName: string, again: string, targets: set<string>)
    requires Shaped(n)
    ensures Resolve(Resolve(n, modName, targets).0, again, targets) == (Resolve(n, modName, targets).0, [])
  {
    ResolveSettles(n, modName, targets);
    ResolveSettled(Resolve(n, modName, targets).0, again, targets);
  }

  /** Filling fields keeps a validated tree valid: required fields stay set and kinds do not change. */
  lemma {:induction false} ResolveKeepsWellKinded(n: Node, modName: string, targets: set<string>)
    requires WellKinded(n)
    ensures Shaped(n)
    ensures WellKinded(Resolve(n, modName, targets).0)
    decreases n
  {
    WellKindedIsShaped(n);
    var own := FromLog(OwnSlots(FieldNames(n.kind), n.attrs, modName, n.id, targets));
    var r := Resolve(n, modName, targets).0;
    forall i | 0 <= i < |r.attrs| && IsRequired(r.kind, FieldNames(r.kind)[i]) ensures r.attrs[i].Some? {
      assert n.attrs[i].Some?;
    }
    assert r.children == ResolveAll(n.children, targets, own).0;
    forall i | 0 <= i < |r.children|
      ensures MayContain(r.kind, r.children[i].kind) && WellKinded(r.children[i])
    {
      ResolveAllAt(n.children, targets, own, i);
      WellKindedIsShaped(n.children[i]);
      ResolveKeepsWellKinded(n.children[i], DefaultModule, targets);
    }
  }

  // ---------------------------------------------------------------------------------------
  // What the dictionary holds

  /** Node `m`, walked with module name `modName`, records `k` for its unset target field `f`. */
  predicate Records(m: Node, modName: string, targets: set<string>, k: string, f: string) {
    && f in targets
    && k == GenName(modName, m.id, f)
    && exists i :: 0 <= i < |m.attrs| && i < |FieldNames(m.kind)| && FieldNames(m.kind)[i] == f && m.attrs[i].None?
  }

  /** Field names that end in pairwise different characters, as the getter and setter fields do. */
  predicate DistinctEnds(fields: set<string>) {
    && (forall f :: f in fields ==> |f| > 0)
    && forall f, g :: f in fields && g in fields && f[|f| - 1] == g[|g| - 1] ==> f == g
  }

  lemma TargetsEndDistinctly()
    ensures DistinctEnds(GetterFields) && DistinctEnds(SetterFields)
  {
  }

  /** Within one module and one field, different ids give different names. */
  lemma GenNameInjective(modName: string, id1: string, id2: string, f: string)
    requires GenName(modName, id1, f) == GenName(modName, id2, f)
    ensures id1 == id2
  {
    var r := GenName(modName, id1, f);
    assert |id1| == |id2|;
    assert id1 == r[|modName| + 1..|modName| + 1 + |id1|];
  }

  /** Within one module and one id, different fields give different names. */
  lemma GenNameFieldInjective(modName: string, id: string, f1: string, f2: string)
    requires GenName(modName, id, f1) == GenName(modName, id, f2)
    ensures f1 == f2
  {
    var r := GenName(modName, id, f1);
    assert |f1| == |f2|;
    assert f1 == r[|r| - |f1|..];
  }

  /** A generated name ends with the last character of its field. */
  lemma GenNameEnd(modName: string, id: string, f: string)
    requires |f| > 0
    ensures var r := GenName(modName, id, f); r[|r| - 1] == f[|f| - 1]
  {
    var r := GenName(modName, id, f);
    assert r[|r| - |f|..][|f| - 1] == r[|r| - 1];
  }

  /** With distinct field ends, a generated name tells which field it was generated for. */
  lemma NameDeterminesField(m1: string, id1: string, f1: string, m2: string, id2: string, f2: string, targets: set<string>)
    requires DistinctEnds(targets) && f1 in targets && f2 in targets
    requires GenName(m1, id1, f1) == GenName(m2, id2, f2)
    ensures f1 == f2
  {
    GenNameEnd(m1, id1, f1);
    GenNameEnd(m2, id2, f2);
  }

  lemma {:induction false} OwnSlotsExact(names: seq<string>, vals: seq<Option<string>>, modName: string, id: string, targets: set<string>, k: string, f: string)
    requires |names| == |vals|
    ensures (k, f) in OwnSlots(names, vals, modName, id, targets) <==>
      f in targets && k == GenName(modName, id, f) && exists i :: 0 <= i < |names| && names[i] == f && vals[i].None?
    decreases |names|
  {
    if |names| > 0 {
      OwnSlotsExact(names[1..], vals[1..], modName, id, targets, k, f);
      if exists i :: 0 <= i < |names| && names[i] == f && vals[i].None? {
        var i :| 0 <= i < |names| && names[i] == f && vals[i].None?;
        if i > 0 {
          assert names[1..][i - 1] == f && vals[1..][i - 1].None?;
        }
      }
      if exists i :: 0 <= i < |names[1..]| && names[1..][i] == f && vals[1..][i].None? {
        var i :| 0 <= i < |names[1..]| && names[1..][i] == f && vals[1..][i].None?;
        assert names[i + 1] == f && vals[i + 1].None?;
      }
    }
  }

  lemma OwnRecords(n: Node, modName: string, targets: set<string>, k: string, f: string)
    requires Shaped(n)
    ensures (k, f) in OwnSlots(FieldNames(n.kind), n.attrs, modName, n.id, targets) <==> Records(n, modName, targets, k, f)
  {
    OwnSlotsExact(FieldNames(n.kind), n.attrs, modName, n.id, targets, k, f);
  }

  /**
   * The records of a walk are exactly those of its nodes: the root's, made with the module
   * name the walk was given, and every other node's, made with the default one.
   */
  lemma {:induction false} SlotsExact(n: Node, modName: string, targets: set<string>, k: string, f: string)
    requires Shaped(n)
    ensures (k, f) in Slots(n, modName, targets) <==>
      Records(n, modName, targets, k, f) || exists c :: c in PreOrderAll(n.children) && Records(c, DefaultModule, targets, k, f)
    decreases n
  {
    OwnRecords(n, modName, targets, k, f);
    SlotsAllExact(n.children, targets, k, f);
  }

  lemma {:induction false} SlotsAllExact(cs: seq<Node>, targets: set<string>, k: string, f: string)
    requires forall i :: 0 <= i < |cs| ==> Shaped(cs[i])
    ensures (k, f) in SlotsAll(cs, targets) <==> exists c :: c in PreOrderAll(cs) && Records(c, DefaultModule, targets, k, f)
    decreases cs
  {
    if |cs| > 0 {
      SlotsExact(cs[0], DefaultModule, targets, k, f);
      SlotsAllExact(cs[1..], targets, k, f);
      assert PreOrderAll(cs) == [cs[0]] + PreOrderAll(cs[0].children) + PreOrderAll(cs[1..]);
      if exists c :: c in PreOrderAll(cs) && Records(c, DefaultModule, targets, k, f) {
        var c :| c in PreOrderAll(cs) && Records(c, DefaultModule, targets, k, f);
        assert c == cs[0] || c in PreOrderAll(cs[0].children) || c in PreOrderAll(cs[1..]);
      }
    }
  }

  /** A record pairs a name with a target field whose last character the name ends in. */
  predicate Tagged(e: (string, string), targets: set<string>) {
    e.1 in targets && |e.1| > 0 && |e.0| > 0 && e.0[|e.0| - 1] == e.1[|e.1| - 1]
  }

  lemma SlotTagged(n: Node, modName: string, targets: set<string>, e: (string, string))
    requires Shaped(n) && DistinctEnds(targets)
    requires e in Slots(n, modName, targets)
    ensures Tagged(e, targets)
  {
    SlotsTagged(n, modName, targets);
  }

  lemma {:induction false} OwnSlotsTagged(names: seq<string>, vals: seq<Option<string>>, modName: string, id: string, targets: set<string>)
    requires |names| == |vals| && DistinctEnds(targets)
    ensures forall e :: e in OwnSlots(names, vals, modName, id, targets) ==> Tagged(e, targets)
    decreases |names|
  {
    if |names| > 0 {
      OwnSlotsTagged(names[1..], vals[1..], modName, id, targets);
      if names[0] in targets && vals[0].None? {
        NameTagged(modName, id, targets, (GenName(modName, id, names[0]), names[0]));
      }
    }
  }

  lemma {:induction false} SlotsTagged(n: Node, modName: string, targets: set<string>)
    requires Shaped(n) && DistinctEnds(targets)
    ensures forall e :: e in Slots(n, modName, targets) ==> Tagged(e, targets)
    decreases n
  {
    OwnSlotsTagged(FieldNames(n.kind), n.attrs, modName, n.id, targets);
    SlotsAllTagged(n.children, targets);
  }

  lemma {:induction false} SlotsAllTagged(cs: seq<Node>, targets: set<string>)
    requires (forall i :: 0 <= i < |cs| ==> Shaped(cs[i])) && DistinctEnds(targets)
    ensures forall e :: e in SlotsAll(cs, targets) ==> Tagged(e, targets)
    decreases cs
  {
    if |cs| > 0 {
      SlotsTagged(cs[0], DefaultModule, targets);
      SlotsAllTagged(cs[1..], targets);
    }
  }

  /** A generated name ends in the last character of the target field it was generated for. */
  lemma NameTagged(modName: string, id: string, targets: set<string>, e: (string, string))
    requires DistinctEnds(targets) && e.1 in targets && e.0 == GenName(modName, id, e.1)
    ensures Tagged(e, targets)
  {
    GenNameEnd(modName, id, e.1);
  }

  /**
   * The dictionary maps `k` to `f` exactly when the walk recorded that pair: a later
   * record for the same name can only repeat the field, so merging loses nothing.
   */
  lemma ResolveGetSlots(n: Node, modName: string, targets: set<string>, k: string, f: string)
    requires Shaped(n) && DistinctEnds(targets)
    ensures Get(Resolve(n, modName, targets).1, k) == Some(f) <==> (k, f) in Slots(n, modName, targets)
  {
    ResolveLog(n, modName, targets);
    SlotsTagged(n, modName, targets);
    TaggedLogGet(Slots(n, modName, targets), targets, k, f);
  }

  /** Merging a log of tagged records keeps every record: no name is ever given two fields. */
  lemma TaggedLogGet(l: seq<(string, string)>, targets: set<string>, k: string, f: string)
    requires DistinctEnds(targets)
    requires forall e :: e in l ==> Tagged(e, targets)
    ensures Get(FromLog(l), k) == Some(f) <==> (k, f) in l
  {
    if (k, f) in l {
      forall e | e in l && e.0 == k ensures e.1 == f {
        assert Tagged(e, targets) && Tagged((k, f), targets);
      }
      GetPutAll([], l, k, f);
    }
    if Get(FromLog(l), k) == Some(f) {
      PutAllSound([], l, (k, f));
    }
  }

  /**
   * `get_getters` / `get_setters`: the returned dictionary maps a name to a field exactly
   * when some node left that target field unset and the name is the one generated for
   * it; the root's name carries the given module name, every other node's the default.
   */
  lemma ResolveGet(n: Node, modName: string, targets: set<string>, k: string, f: string)
    requires Shaped(n) && DistinctEnds(targets)
    ensures Get(Resolve(n, modName, targets).1, k) == Some(f) <==>
      Records(n, modName, targets, k, f) || exists c :: c in PreOrderAll(n.children) && Records(c, DefaultModule, targets, k, f)
  {
    ResolveGetSlots(n, modName, targets, k, f);
    SlotsExact(n, modName, targets, k, f);
  }

  /**
   * A field the walk fills now holds a name the dictionary maps back to that field's name.
   * Stated for the node walked; each child is itself walked this way with the default
   * module name.
   */
  lemma FilledNameIsKey(n: Node, modName: string, targets: set<string>, i: nat)
    requires Shaped(n) && DistinctEnds(targets)
    requires i < |n.attrs| && FieldNames(n.kind)[i] in targets && n.attrs[i].None?
    ensures var r := Resolve(n, modName, targets);
      r.0.attrs[i].Some? && Get(r.1, r.0.attrs[i].value) == Some(FieldNames(n.kind)[i])
  {
    var f := FieldNames(n.kind)[i];
    var k := GenName(modName, n.id, f);
    assert Resolve(n, modName, targets).0.attrs[i] == Some(k);
    assert Records(n, modName, targets, k, f);
    ResolveGet(n, modName, targets, k, f);
  }

  /** When no two records share a name, the dictionary is the log itself, in walk order. */
  lemma ResolveUnique(n: Node, modName: string, targets: set<string>)
    requires Shaped(n)
    requires NoDupKeys(Slots(n, modName, targets))
    ensures Resolve(n, modName, targets).1 == Slots(n, modName, targets)
  {
    ResolveLog(n, modName, targets);
    PutAllFresh([], Slots(n, modName, targets));
  }

  // ---------------------------------------------------------------------------------------
  // Distinct ids give distinct names

  /** No two nodes of the list share an id. */
  predicate IdsDistinct(ns: seq<Node>) {
    forall i, j :: 0 <= i < j < |ns| ==> ns[i].id != ns[j].id
  }

  /** The records one node makes by itself when walked with module `modName`. */
  function NodeSlots(m: Node, modName: string, targets: set<string>): seq<(string, string)>
    requires |m.attrs| == |FieldNames(m.kind)|
  {
    OwnSlots(FieldNames(m.kind), m.attrs, modName, m.id, targets)
  }

  /** The records of a list of nodes, each walked with module `modName`, one node at a time. */
  function SlotsOf(ns: seq<Node>, modName: string, targets: set<string>): seq<(string, string)>
    requires Fits(ns)
  {
    if |ns| == 0 then [] else NodeSlots(ns[0], modName, targets) + SlotsOf(ns[1..], modName, targets)
  }

  lemma {:induction false} SlotsOfAppend(a: seq<Node>, b: seq<Node>, modName: string, targets: set<string>)
    requires Fits(a)
    requires Fits(b)
    ensures Fits(a + b)
    ensures SlotsOf(a + b, modName, targets) == SlotsOf(a, modName, targets) + SlotsOf(b, modName, targets)
    decreases |a|
  {
    FitsAppend(a, b);
    if |a| == 0 {
      assert a + b == b;
    } else {
      var ab := a + b;
      assert ab[0] == a[0] && ab[1..] == a[1..] + b;
      FitsTail(a);
      SlotsOfAppend(a[1..], b, modName, targets);
      assert SlotsOf(ab, modName, targets) == NodeSlots(a[0], modName, targets) + SlotsOf(a[1..] + b, modName, targets);
      assert SlotsOf(a, modName, targets) == NodeSlots(a[0], modName, targets) + SlotsOf(a[1..], modName, targets);
    }
  }

  /** Walked with the default module, the tree's records are each node's own, nodes in pre-order. */
  lemma {:induction false} SlotsPreOrder(n: Node, targets: set<string>)
    requires Shaped(n)
    ensures Fits(PreOrder(n))
    ensures Slots(n, DefaultModule, targets) == SlotsOf(PreOrder(n), DefaultModule, targets)
    decreases n
  {
    PreOrderFits(n);
    PreOrderAllFits(n.children);
    SlotsAllPreOrder(n.children, targets);
    SlotsOfAppend([n], PreOrderAll(n.children), DefaultModule, targets);
  }

  lemma {:induction false} SlotsAllPreOrder(cs: seq<Node>, targets: set<string>)
    requires forall i :: 0 <= i < |cs| ==> Shaped(cs[i])
    ensures Fits(PreOrderAll(cs))
    ensures SlotsAll(cs, targets) == SlotsOf(PreOrderAll(cs), DefaultModule, targets)
    decreases cs
  {
    PreOrderAllFits(cs);
    if |cs| > 0 {
      SlotsPreOrder(cs[0], targets);
      SlotsAllPreOrder(cs[1..], targets);
      SlotsOfAppend(PreOrder(cs[0]), PreOrderAll(cs[1..]), DefaultModule, targets);
    }
  }

  /** Every name a node records is generated from its id and one of its target fields. */
  lemma OwnSlotsKey(names: seq<string>, vals: seq<Option<string>>, modName: string, id: string, targets: set<string>, k: string)
    returns (f: string)
    requires |names| == |vals| && k in Keys(OwnSlots(names, vals, modName, id, targets))
    ensures f in targets && f in names && k == GenName(modName, id, f)
  {
    var d := OwnSlots(names, vals, modName, id, targets);
    KeysMembership(d, k);
    var i :| 0 <= i < |d| && d[i].0 == k;
    f := d[i].1;
    OwnSlotsExact(names, vals, modName, id, targets, k, f);
  }

  /** A node whose fields are pairwise distinct records each name once. */
  lemma {:induction false} OwnSlotsNoDup(names: seq<string>, vals: seq<Option<string>>, modName: string, id: string, targets: set<string>)
    requires |names| == |vals|
    requires forall i, j :: 0 <= i < j < |names| ==> names[i] != names[j]
    ensures NoDupKeys(OwnSlots(names, vals, modName, id, targets))
    decreases |names|
  {
    if |names| > 0 {
      var rest := OwnSlots(names[1..], vals[1..], modName, id, targets);
      OwnSlotsNoDup(names[1..], vals[1..], modName, id, targets);
      if names[0] in targets && vals[0].None? {
        var k := GenName(modName, id, names[0]);
        if k in Keys(rest) {
          var f := OwnSlotsKey(names[1..], vals[1..], modName, id, targets, k);
          assert false;
        }
        assert [(k, names[0])] + rest == OwnSlots(names, vals, modName, id, targets);
      } else {
        assert rest == OwnSlots(names, vals, modName, id, targets);
      }
    }
  }

  /** Every name in the records of a list of nodes is generated from one node's id. */
  lemma {:induction false} SlotsOfKey(ns: seq<Node>, modName: string, targets: set<string>, k: string) returns (j: nat, f: string)
    requires Fits(ns)
    requires k in Keys(SlotsOf(ns, modName, targets))
    ensures j < |ns| && f in targets && k == GenName(modName, ns[j].id, f)
    decreases |ns|
  {
    assert |ns| > 0;
    var own := NodeSlots(ns[0], modName, targets);
    assert SlotsOf(ns, modName, targets) == own + SlotsOf(ns[1..], modName, targets);
    KeysAppend(own, SlotsOf(ns[1..], modName, targets));
    if k in Keys(own) {
      j := 0;
      f := OwnSlotsKey(FieldNames(ns[0].kind), ns[0].attrs, modName, ns[0].id, targets, k);
    } else {
      var j', f' := SlotsOfKey(ns[1..], modName, targets, k);
      assert ns[1..][j'] == ns[j' + 1];
      j, f := j' + 1, f';
    }
  }

  lemma IdsDistinctTail(ns: seq<Node>)
    requires |ns| > 0 && IdsDistinct(ns)
    ensures IdsDistinct(ns[1..])
    ensures forall i :: 0 <= i < |ns[1..]| ==> ns[1..][i].id != ns[0].id
  {
    forall i, j | 0 <= i < j < |ns[1..]| ensures ns[1..][i].id != ns[1..][j].id {
      assert ns[1..][i] == ns[i + 1] && ns[1..][j] == ns[j + 1];
    }
    forall i | 0 <= i < |ns[1..]| ensures ns[1..][i].id != ns[0].id {
      assert ns[1..][i] == ns[i + 1];
    }
  }

  /** Under one module, target fields of controls with different ids get different names. */
  lemma NamesApart(modName: string, id1: string, f1: string, id2: string, f2: string, targets: set<string>)
    requires DistinctEnds(targets) && f1 in targets && f2 in targets && id1 != id2
    ensures GenName(modName, id1, f1) != GenName(modName, id2, f2)
  {
    if GenName(modName, id1, f1) == GenName(modName, id2, f2) {
      NameDeterminesField(modName, id1, f1, modName, id2, f2, targets);
      GenNameInjective(modName, id1, id2, f1);
      assert false;
    }
  }

  /** A node's names differ from every name recorded by nodes of other ids. */
  lemma SlotsApart(m: Node, rest: seq<Node>, modName: string, targets: set<string>)
    requires |m.attrs| == |FieldNames(m.kind)|
    requires Fits(rest)
    requires DistinctEnds(targets) && forall i :: 0 <= i < |rest| ==> rest[i].id != m.id
    ensures Keys(NodeSlots(m, modName, targets)) !! Keys(SlotsOf(rest, modName, targets))
  {
    forall k | k in Keys(NodeSlots(m, modName, targets)) ensures k !in Keys(SlotsOf(rest, modName, targets)) {
      var f1 := OwnSlotsKey(FieldNames(m.kind), m.attrs, modName, m.id, targets, k);
      if k in Keys(SlotsOf(rest, modName, targets)) {
        var j, f2 := SlotsOfKey(rest, modName, targets, k);
        NamesApart(modName, m.id, f1, rest[j].id, f2, targets);
        assert false;
      }
    }
  }

  /** Nodes with pairwise distinct ids, all walked with one module, record each name once. */
  lemma {:induction false} SlotsOfNoDup(ns: seq<Node>, modName: string, targets: set<string>)
    requires Fits(ns)
    requires DistinctEnds(targets) && IdsDistinct(ns)
    ensures NoDupKeys(SlotsOf(ns, modName, targets))
    decreases |ns|
  {
    if |ns| > 0 {
      var m, rest := ns[0], ns[1..];
      NodeSlotsNoDup(m, modName, targets);
      IdsDistinctTail(ns);
      FitsTail(ns);
      SlotsOfNoDup(rest, modName, targets);
      SlotsApart(m, rest, modName, targets);
      NoDupKeysAppend(NodeSlots(m, modName, targets), SlotsOf(rest, modName, targets));
      assert SlotsOf(ns, modName, targets) == NodeSlots(m, modName, targets) + SlotsOf(rest, modName, targets);
    }
  }

  /** A node records each of its names once: its fields are pairwise distinct. */
  lemma NodeSlotsNoDup(m: Node, modName: string, targets: set<string>)
    requires |m.attrs| == |FieldNames(m.kind)|
    ensures NoDupKeys(NodeSlots(m, modName, targets))
  {
    FieldNamesDistinct(m.kind);
    OwnSlotsNoDup(FieldNames(m.kind), m.attrs, modName, m.id, targets);
  }

  /**
   * When no two controls of the tree share an id, no two records share a generated name, so
   * the dictionary holds every record of the walk, in walk order. The root must be walked
   * with the default module: any other module name can collide with a child's id
   * (`ModuleNameAtRootOnly`).
   */
  lemma UniqueIdsUniqueNames(n: Node, targets: set<string>)
    requires Shaped(n) && DistinctEnds(targets) && IdsDistinct(PreOrder(n))
    ensures NoDupKeys(Slots(n, DefaultModule, targets))
    ensures Resolve(n, DefaultModule, targets).1 == Slots(n, DefaultModule, targets)
  {
    SlotsPreOrder(n, targets);
    SlotsOfNoDup(PreOrder(n), DefaultModule, targets);
    ResolveUnique(n, DefaultModule, targets);
  }

  // ---------------------------------------------------------------------------------------
  // Where the records come from, and where the names end up

  /** Every record names a node of the tree and one of its unset target fields. */
  lemma SlotOwner(n: Node, modName: string, targets: set<string>, e: (string, string)) returns (c: Node, i: nat)
    requires Shaped(n) && e in Slots(n, modName, targets)
    ensures c in PreOrder(n) && e.1 in targets
    ensures i < |c.attrs| && i < |FieldNames(c.kind)| && FieldNames(c.kind)[i] == e.1 && c.attrs[i].None?
  {
    SlotsExact(n, modName, targets, e.0, e.1);
    if Records(n, modName, targets, e.0, e.1) {
      c := n;
    } else {
      c :| c in PreOrderAll(n.children) && Records(c, DefaultModule, targets, e.0, e.1);
    }
    i :| 0 <= i < |c.attrs| && i < |FieldNames(c.kind)| && FieldNames(c.kind)[i] == e.1 && c.attrs[i].None?;
  }

  /** Every entry of the dictionary is one of the walk's records. */
  lemma EntryIsSlot(n: Node, modName: string, targets: set<string>, e: (string, string))
    requires Shaped(n) && e in Resolve(n, modName, targets).1
    ensures e in Slots(n, modName, targets)
  {
    ResolveLog(n, modName, targets);
    PutAllSound([], Slots(n, modName, targets), e);
  }

  /** `get_getters` only ever reports `getText`: no other getter field is declared by any control. */
  lemma GettersAreGetText(n: Node, modName: string)
    requires Shaped(n)
    ensures forall e :: e in Getters(n, modName).1 ==> e.1 == "getText"
  {
    forall e | e in Getters(n, modName).1 ensures e.1 == "getText" {
      EntryIsSlot(n, modName, GetterFields, e);
      var c, i := SlotOwner(n, modName, GetterFields, e);
      OnlyGetTextDeclared(c.kind, e.1);
    }
  }

  /**
   * On a validated tree `get_setters` only ever reports `setText`: `onChange` is required
   * wherever it is declared, so it is never unset.
   */
  lemma SettersAreSetText(n: Node, modName: string)
    requires WellKinded(n)
    ensures Shaped(n)
    ensures forall e :: e in Setters(n, modName).1 ==> e.1 == "setText"
  {
    WellKindedIsShaped(n);
    forall e | e in Setters(n, modName).1 ensures e.1 == "setText" {
      EntryIsSlot(n, modName, SetterFields, e);
      var c, i := SlotOwner(n, modName, SetterFields, e);
      PreOrderWellKinded(n, c);
      SetterFieldsDeclared(c.kind, e.1);
    }
  }

  /** Node `c` now holds `k` in its field `f`. */
  predicate Holds(c: Node, f: string, k: string) {
    exists i :: 0 <= i < |c.attrs| && i < |FieldNames(c.kind)| && FieldNames(c.kind)[i] == f && c.attrs[i] == Some(k)
  }

  lemma InConcat<T>(a: seq<T>, b: seq<T>, x: T)
    requires x in a + b
    ensures x in a || x in b
  {
    if x !in a {
      var i :| 0 <= i < |a + b| && (a + b)[i] == x;
      assert b[i - |a|] == x;
    }
  }

  lemma SlotsAllSplit(cs: seq<Node>, targets: set<string>, e: (string, string)) returns (j: nat)
    requires forall i :: 0 <= i < |cs| ==> Shaped(cs[i])
    requires e in SlotsAll(cs, targets)
    ensures j < |cs| && e in Slots(cs[j], DefaultModule, targets)
  {
    var p :| 0 <= p < |SlotsAll(cs, targets)| && SlotsAll(cs, targets)[p] == e;
    j := SlotsAllAt(cs, targets, p);
  }

  /** The record at position `p` of the children's records is one of child `j`'s records. */
  lemma {:induction false} SlotsAllAt(cs: seq<Node>, targets: set<string>, p: nat) returns (j: nat)
    requires forall i :: 0 <= i < |cs| ==> Shaped(cs[i])
    requires p < |SlotsAll(cs, targets)|
    ensures j < |cs| && SlotsAll(cs, targets)[p] in Slots(cs[j], DefaultModule, targets)
    decreases cs
  {
    ShapedTail(cs);
    SlotsAllCons(cs, targets);
    var head, tail := Slots(cs[0], DefaultModule, targets), SlotsAll(cs[1..], targets);
    if p < |head| {
      assert (head + tail)[p] == head[p];
      j := 0;
    } else {
      var j' := SlotsAllAt(cs[1..], targets, p - |head|);
      assert (head + tail)[p] == tail[p - |head|];
      j := j' + 1;
    }
  }

  lemma SlotsAllCons(cs: seq<Node>, targets: set<string>)
    requires |cs| > 0 && forall i :: 0 <= i < |cs| ==> Shaped(cs[i])
    ensures SlotsAll(cs, targets) == Slots(cs[0], DefaultModule, targets) + SlotsAll(cs[1..], targets)
  {
  }

  /** A list of shaped nodes without its head is still a list of shaped nodes. */
  lemma ShapedTail(cs: seq<Node>)
    requires |cs| > 0 && forall i :: 0 <= i < |cs| ==> Shaped(cs[i])
    ensures forall i :: 0 <= i < |cs| - 1 ==> Shaped(cs[1..][i]) && cs[1..][i] == cs[i + 1]
  {
  }

  /**
   * Every name the walk reports has been written into the model: some node of the
   * resulting tree holds it in the field the dictionary maps it to.
   */
  lemma {:induction false} ResolveWrites(n: Node, modName: string, targets: set<string>, k: string, f: string)
    requires Shaped(n) && (k, f) in Slots(n, modName, targets)
    ensures exists c :: c in PreOrder(Resolve(n, modName, targets).0) && Holds(c, f, k)
    decreases n
  {
    var r := Resolve(n, modName, targets).0;
    var own := OwnSlots(FieldNames(n.kind), n.attrs, modName, n.id, targets);
    if (k, f) in own {
      OwnRecords(n, modName, targets, k, f);
      var i :| 0 <= i < |n.attrs| && i < |FieldNames(n.kind)| && FieldNames(n.kind)[i] == f && n.attrs[i].None?;
      assert r.attrs[i] == Some(k);
      assert r in PreOrder(r);
    } else {
      var j := SlotsAllSplit(n.children, targets, (k, f));
      ResolveWrites(n.children[j], DefaultModule, targets, k, f);
      var c :| c in PreOrder(Resolve(n.children[j], DefaultModule, targets).0) && Holds(c, f, k);
      assert r.children == ResolveAll(n.children, targets, FromLog(own)).0;
      ResolveAllAt(n.children, targets, FromLog(own), j);
      PreOrderAllMember(r.children, j, c);
    }
  }

  // ---------------------------------------------------------------------------------------
  // The module name reaches the root only

  /**
   * A label control `a` holding a label control `b`, both with `getText` unset, walked with
   * module name `mymod`: the root's name uses `mymod`, the child's the default module.
   */
  lemma ModuleNameAtRootOnly(b: Node, a: Node)
    requires b == Node(LabelControl, "b", [None, None], [])
    requires a == Node(LabelControl, "a", [None, None], [b])
    ensures Shaped(a)
    ensures Getters(a, "mymod").1 == [(GenName("mymod", "a", "getText"), "getText"), (GenName(DefaultModule, "b", "getText"), "getText")]
  {
    var names := FieldNames(LabelControl);
    assert names == ["getText", "setText"];
    var lb := OwnLabelSlots(b.id, DefaultModule);
    var la := OwnLabelSlots(a.id, "mymod");
    assert [b][1..] == [];
    assert Slots(b, DefaultModule, GetterFields) == lb + [];
    assert SlotsAll([b], GetterFields) == lb + [];
    var l := Slots(a, "mymod", GetterFields);
    assert l == la + lb;
    assert GenName("mymod", "a", "getText")[0] == 'm';
    assert GenName(DefaultModule, "b", "getText")[0] == 'x';
    ResolveUnique(a, "mymod", GetterFields);
  }

  lemma OwnLabelSlots(id: string, modName: string) returns (l: seq<(string, string)>)
    ensures l == [(GenName(modName, id, "getText"), "getText")]
    ensures OwnSlots(["getText", "setText"], [None, None], modName, id, GetterFields) == l
  {
    l := [(GenName(modName, id, "getText"), "getText")];
    var names: seq<string> := ["getText", "setText"];
    var vals: seq<Option<string>> := [None, None];
    assert "setText" !in GetterFields;
    assert names[1..][1..] == [];
    assert OwnSlots(names[1..], vals[1..], modName, id, GetterFields) == [] + OwnSlots(names[1..][1..], vals[1..][1..], modName, id, GetterFields);
  }
}
