/**
 * The read-only walks over the model tree: `get_callbacks` collects the callback names a
 * tree refers to and `get_images` the image names; both visit a node before its children.
 */
module Walks {
  import opened Wrappers
  import opened Kinds
  import opened Nodes

  /**
   * The values of the set fields whose names are in `keep`, in declaration order; with
   * `truthy`, empty strings are dropped as well (Python's `if value`).
   */
  function Picked(names: seq<string>, vals: seq<Option<string>>, keep: set<string>, truthy: bool): seq<string>
    requires |names| == |vals|
  {
    if |names| == 0 then []
    else
      var here := if names[0] in keep && vals[0].Some? && (!truthy || vals[0].value != "") then [vals[0].value] else [];
      here + Picked(names[1..], vals[1..], keep, truthy)
  }

  /** What one node contributes by itself. */
  function Own(n: Node, keep: set<string>, truthy: bool): seq<string>
    requires |n.attrs| == |FieldNames(n.kind)|
  {
    Picked(FieldNames(n.kind), n.attrs, keep, truthy)
  }

  /** A node's own values, then those of each child in turn, without deduplication. */
  function Collect(n: Node, keep: set<string>, truthy: bool): seq<string>
    requires Shaped(n)
    decreases n
  {
    Own(n, keep, truthy) + CollectAll(n.children, keep, truthy)
  }

  function CollectAll(cs: seq<Node>, keep: set<string>, truthy: bool): seq<string>
    requires forall i :: 0 <= i < |cs| ==> Shaped(cs[i])
    decreases cs
  {
    if |cs| == 0 then [] else Collect(cs[0], keep, truthy) + CollectAll(cs[1..], keep, truthy)
  }

  /** `get_callbacks`: every set `onAction` and `getPressed` value. */
  function Callbacks(n: Node): seq<string>
    requires Shaped(n)
  {
    Collect(n, CallbackFields, false)
  }

  /** `get_images`: every non-empty `image` value. */
  function Images(n: Node): seq<string>
    requires Shaped(n)
  {
    Collect(n, {ImageField}, true)
  }

  /** The values of a list of nodes taken one node at a time. */
  function OwnOfAll(ns: seq<Node>, keep: set<string>, truthy: bool): seq<string>
    requires Fits(ns)
  {
    if |ns| == 0 then [] else Own(ns[0], keep, truthy) + OwnOfAll(ns[1..], keep, truthy)
  }

  lemma {:induction false} OwnOfAllAppend(a: seq<Node>, b: seq<Node>, keep: set<string>, truthy: bool)
    requires Fits(a)
    requires Fits(b)
    ensures Fits(a + b)
    ensures OwnOfAll(a + b, keep, truthy) == OwnOfAll(a, keep, truthy) + OwnOfAll(b, keep, truthy)
    decreases |a|
  {
    FitsAppend(a, b);
    if |a| == 0 {
      assert a + b == b;
    } else {
      var ab := a + b;
      assert ab[0] == a[0] && ab[1..] == a[1..] + b;
      FitsTail(a);
      OwnOfAllAppend(a[1..], b, keep, truthy);
      assert OwnOfAll(ab, keep, truthy) == Own(a[0], keep, truthy) + OwnOfAll(a[1..] + b, keep, truthy);
      assert OwnOfAll(a, keep, truthy) == Own(a[0], keep, truthy) + OwnOfAll(a[1..], keep, truthy);
    }
  }

  /** The walk is a pre-order traversal: each node's own values, nodes in pre-order. */
  lemma {:induction false} CollectPreOrder(n: Node, keep: set<string>, truthy: bool)
    requires Shaped(n)
    ensures Fits(PreOrder(n))
    ensures Collect(n, keep, truthy) == OwnOfAll(PreOrder(n), keep, truthy)
    decreases n
  {
    PreOrderFits(n);
    PreOrderAllFits(n.children);
    CollectAllPreOrder(n.children, keep, truthy);
    OwnOfAllAppend([n], PreOrderAll(n.children), keep, truthy);
  }

  lemma {:induction false} CollectAllPreOrder(cs: seq<Node>, keep: set<string>, truthy: bool)
    requires forall i :: 0 <= i < |cs| ==> Shaped(cs[i])
    ensures Fits(PreOrderAll(cs))
    ensures CollectAll(cs, keep, truthy) == OwnOfAll(PreOrderAll(cs), keep, truthy)
    decreases cs
  {
    PreOrderAllFits(cs);
    if |cs| > 0 {
      CollectPreOrder(cs[0], keep, truthy);
      CollectAllPreOrder(cs[1..], keep, truthy);
      OwnOfAllAppend(PreOrder(cs[0]), PreOrderAll(cs[1..]), keep, truthy);
    }
  }

  /** A node contributes a value exactly when one of its kept fields is set to it. */
  lemma {:induction false} PickedExact(names: seq<string>, vals: seq<Option<string>>, keep: set<string>, truthy: bool, v: string)
    requires |names| == |vals|
    ensures v in Picked(names, vals, keep, truthy) <==>
      (!truthy || v != "") && exists i :: 0 <= i < |names| && names[i] in keep && vals[i] == Some(v)
    decreases |names|
  {
    if |names| > 0 {
      PickedExact(names[1..], vals[1..], keep, truthy, v);
      if exists i :: 0 <= i < |names| && names[i] in keep && vals[i] == Some(v) {
        var i :| 0 <= i < |names| && names[i] in keep && vals[i] == Some(v);
        if i > 0 {
          assert names[1..][i - 1] in keep && vals[1..][i - 1] == Some(v);
        }
      }
      if exists i :: 0 <= i < |names[1..]| && names[1..][i] in keep && vals[1..][i] == Some(v) {
        var i :| 0 <= i < |names[1..]| && names[1..][i] in keep && vals[1..][i] == Some(v);
        assert names[i + 1] in keep && vals[i + 1] == Some(v);
      }
    }
  }

  lemma {:induction false} OwnOfAllExact(ns: seq<Node>, keep: set<string>, truthy: bool, v: string)
    requires Fits(ns)
    ensures v in OwnOfAll(ns, keep, truthy) <==> exists j :: 0 <= j < |ns| && v in Own(ns[j], keep, truthy)
    decreases |ns|
  {
    if |ns| > 0 {
      OwnOfAllExact(ns[1..], keep, truthy, v);
      if exists j :: 0 <= j < |ns| && v in Own(ns[j], keep, truthy) {
        var j :| 0 <= j < |ns| && v in Own(ns[j], keep, truthy);
        if j > 0 {
          assert ns[1..][j - 1] == ns[j];
        }
      }
      if exists j :: 0 <= j < |ns[1..]| && v in Own(ns[1..][j], keep, truthy) {
        var j :| 0 <= j < |ns[1..]| && v in Own(ns[1..][j], keep, truthy);
        assert ns[j + 1] == ns[1..][j];
      }
    }
  }

  /**
   * A value is collected exactly when some node of the tree has a kept field set to it
   * (and, for a truthy walk, it is not empty).
   */
  lemma CollectExact(n: Node, keep: set<string>, truthy: bool, v: string)
    requires Shaped(n)
    ensures v in Collect(n, keep, truthy) <==>
      (!truthy || v != "") &&
      exists m, i :: m in PreOrder(n) && 0 <= i < |m.attrs| && i < |FieldNames(m.kind)|
        && FieldNames(m.kind)[i] in keep && m.attrs[i] == Some(v)
  {
    CollectPreOrder(n, keep, truthy);
    var ns := PreOrder(n);
    OwnOfAllExact(ns, keep, truthy, v);
    if v in Collect(n, keep, truthy) {
      var j :| 0 <= j < |ns| && v in Own(ns[j], keep, truthy);
      OwnExact(ns[j], keep, truthy, v);
      var i :| 0 <= i < |ns[j].attrs| && i < |FieldNames(ns[j].kind)| && FieldNames(ns[j].kind)[i] in keep && ns[j].attrs[i] == Some(v);
      assert ns[j] in PreOrder(n);
    }
    if (!truthy || v != "") &&
      exists m, i :: m in PreOrder(n) && 0 <= i < |m.attrs| && i < |FieldNames(m.kind)|
        && FieldNames(m.kind)[i] in keep && m.attrs[i] == Some(v)
    {
      var m, i :| m in PreOrder(n) && 0 <= i < |m.attrs| && i < |FieldNames(m.kind)|
        && FieldNames(m.kind)[i] in keep && m.attrs[i] == Some(v);
      var j :| 0 <= j < |ns| && ns[j] == m;
      OwnExact(m, keep, truthy, v);
    }
  }

  /** A node contributes `v` exactly when one of its kept fields is set to `v`. */
  lemma OwnExact(m: Node, keep: set<string>, truthy: bool, v: string)
    requires |m.attrs| == |FieldNames(m.kind)|
    ensures v in Own(m, keep, truthy) <==>
      (!truthy || v != "") &&
      exists i :: 0 <= i < |m.attrs| && i < |FieldNames(m.kind)| && FieldNames(m.kind)[i] in keep && m.attrs[i] == Some(v)
  {
    PickedExact(FieldNames(m.kind), m.attrs, keep, truthy, v);
  }

  /** `get_callbacks` returns each node's set callbacks, nodes taken in pre-order. */
  lemma CallbacksPreOrder(n: Node)
    requires Shaped(n)
    ensures Fits(PreOrder(n))
    ensures Callbacks(n) == OwnOfAll(PreOrder(n), CallbackFields, false)
  {
    CollectPreOrder(n, CallbackFields, false);
  }

  /** A name is a callback of the tree exactly when some node sets `onAction` or `getPressed` to it. */
  lemma CallbacksExact(n: Node, v: string)
    requires Shaped(n)
    ensures v in Callbacks(n) <==>
      exists m, i :: m in PreOrder(n) && 0 <= i < |m.attrs| && i < |FieldNames(m.kind)|
        && FieldNames(m.kind)[i] in CallbackFields && m.attrs[i] == Some(v)
  {
    CollectExact(n, CallbackFields, false, v);
  }

  /** `get_images` returns each node's non-empty image, nodes taken in pre-order. */
  lemma ImagesPreOrder(n: Node)
    requires Shaped(n)
    ensures Fits(PreOrder(n))
    ensures Images(n) == OwnOfAll(PreOrder(n), {ImageField}, true)
  {
    CollectPreOrder(n, {ImageField}, true);
  }

  /**
   * A name is an image of the tree exactly when it is non-empty and some node sets its
   * `image` field to it; kinds that do not declare `image` contribute nothing.
   */
  lemma ImagesExact(n: Node, v: string)
    requires Shaped(n)
    ensures v in Images(n) <==>
      v != "" &&
      exists m, i :: m in PreOrder(n) && 0 <= i < |m.attrs| && i < |FieldNames(m.kind)|
        && FieldNames(m.kind)[i] == ImageField && m.attrs[i] == Some(v)
  {
    CollectExact(n, {ImageField}, true, v);
  }

  /** Two buttons of a group sharing a callback: the name is reported twice, once per button. */
  lemma CallbacksKeepDuplicates(g: Node, v: string)
    requires g.kind == Group && |g.attrs| == 1 && |g.children| == 2
    requires OnlyOnAction(g.children[0], v) && OnlyOnAction(g.children[1], v)
    ensures Shaped(g)
    ensures Callbacks(g) == [v, v]
  {
    ButtonCallback(g.children[0], v);
    ButtonCallback(g.children[1], v);
    GroupCallbacks(g);
  }

  /** A group adds no callbacks of its own: its only field, `label`, is not one. */
  lemma GroupCallbacks(g: Node)
    requires g.kind == Group && |g.attrs| == 1 && |g.children| == 2
    requires Shaped(g.children[0]) && Shaped(g.children[1])
    ensures Shaped(g)
    ensures Callbacks(g) == Collect(g.children[0], CallbackFields, false) + Collect(g.children[1], CallbackFields, false)
  {
    assert FieldNames(Group) == ["label"];
    assert Own(g, CallbackFields, false) == [] by {
      assert "label" !in CallbackFields;
      assert Picked(["label"], g.attrs, CallbackFields, false) == [] + Picked([], [], CallbackFields, false);
    }
    assert g.children == [g.children[0], g.children[1]];
    CollectPair(g.children[0], g.children[1], CallbackFields, false);
  }

  lemma CollectPair(a: Node, b: Node, keep: set<string>, truthy: bool)
    requires Shaped(a) && Shaped(b)
    ensures CollectAll([a, b], keep, truthy) == Collect(a, keep, truthy) + Collect(b, keep, truthy)
  {
    assert [a, b][1..] == [b];
    assert [b][1..] == [];
  }

  /**
   * A leaf button whose `onAction` is `v` and whose `enabled`, `image`, `imageMso`,
   * `screentip` and `supertip` are unset.
   */
  predicate OnlyOnAction(b: Node, v: string) {
    && b.kind == Button && |b.attrs| == 8 && b.children == []
    && b.attrs[0] == None && b.attrs[2] == None && b.attrs[3] == None && b.attrs[6] == None && b.attrs[7] == None
    && b.attrs[5] == Some(v)
  }

  /** Such a button reports its `onAction` alone. */
  lemma ButtonCallback(b: Node, v: string)
    requires OnlyOnAction(b, v)
    ensures Shaped(b) && Collect(b, CallbackFields, false) == [v]
  {
    UiCallbacks();
    PickedOnlyAction(UiFields, b.attrs, CallbackFields, v);
  }

  /**
   * Eight fields where only the sixth holds a value of a kept field, and the second and
   * fifth, which may be set, are not kept: the sixth value alone is picked.
   */
  lemma PickedOnlyAction(names: seq<string>, vals: seq<Option<string>>, keep: set<string>, v: string)
    requires |names| == 8 && |vals| == 8
    requires names[5] in keep && names[1] !in keep && names[4] !in keep
    requires vals[0] == None && vals[2] == None && vals[3] == None && vals[6] == None && vals[7] == None
    requires vals[5] == Some(v)
    ensures Picked(names, vals, keep, false) == [v]
  {
    PickedStep(names, vals, keep, false, 7);
    assert names[8..] == [] && vals[8..] == [];
    PickedStep(names, vals, keep, false, 6);
    PickedStep(names, vals, keep, false, 5);
    PickedStep(names, vals, keep, false, 4);
    PickedStep(names, vals, keep, false, 3);
    PickedStep(names, vals, keep, false, 2);
    PickedStep(names, vals, keep, false, 1);
    PickedStep(names, vals, keep, false, 0);
    assert names[0..] == names && vals[0..] == vals;
  }

  /** Of the fields a button declares, `onAction` is a callback and `label` and `size` are not. */
  lemma UiCallbacks()
    ensures |UiFields| == 8 && UiFields[5] in CallbackFields
    ensures UiFields[1] !in CallbackFields && UiFields[4] !in CallbackFields
  {
  }

  /** The values picked from position `i` on: the value at `i`, if kept, then the rest. */
  lemma PickedStep(names: seq<string>, vals: seq<Option<string>>, keep: set<string>, truthy: bool, i: nat)
    requires |names| == |vals| && i < |names|
    ensures Picked(names[i..], vals[i..], keep, truthy) ==
      (if names[i] in keep && vals[i].Some? && (!truthy || vals[i].value != "") then [vals[i].value] else [])
      + Picked(names[i + 1..], vals[i + 1..], keep, truthy)
  {
    assert names[i..][1..] == names[i + 1..] && vals[i..][1..] == vals[i + 1..];
  }
}
