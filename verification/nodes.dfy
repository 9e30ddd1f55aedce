/** The ribbon model tree: one node per control, each owning an ordered list of children. */
module Nodes {
  import opened Wrappers
  import opened Kinds

  /**
   * A control: its kind, its `id`, the value of each field the kind declares (aligned with
   * `FieldNames(kind)`, None for an unset field) and its children. Every walk treats a
   * `children` of None like an empty list, so both are the empty sequence here.
   */
  datatype Node = Node(kind: Kind, id: string, attrs: seq<Option<string>>, children: seq<Node>)

  /** Every node of the tree carries exactly the fields its kind declares. */
  predicate Shaped(n: Node)
    decreases n
  {
    && |n.attrs| == |FieldNames(n.kind)|
    && forall i :: 0 <= i < |n.children| ==> Shaped(n.children[i])
  }

  /**
   * What model validation guarantees of a tree: every node is shaped, its required fields
   * are set, and each child is of a kind its parent's children list accepts.
   */
  predicate WellKinded(n: Node)
    decreases n
  {
    && |n.attrs| == |FieldNames(n.kind)|
    && (forall i :: 0 <= i < |n.attrs| && IsRequired(n.kind, FieldNames(n.kind)[i]) ==> n.attrs[i].Some?)
    && forall i :: 0 <= i < |n.children| ==> MayContain(n.kind, n.children[i].kind) && WellKinded(n.children[i])
  }

  /** The nodes of a tree in pre-order: a node, then the nodes of each child in turn. */
  function PreOrder(n: Node): seq<Node>
    decreases n
  {
    [n] + PreOrderAll(n.children)
  }

  function PreOrderAll(cs: seq<Node>): seq<Node>
    decreases cs
  {
    if |cs| == 0 then [] else PreOrder(cs[0]) + PreOrderAll(cs[1..])
  }

  lemma {:induction false} WellKindedIsShaped(n: Node)
    requires WellKinded(n)
    ensures Shaped(n)
    decreases n
  {
    forall i | 0 <= i < |n.children| {
      WellKindedIsShaped(n.children[i]);
    }
  }

  /**
   * A validated `tabs` tree has three typed levels: its children are tabs, theirs are
   * groups, and a group's children are the controls a group may hold.
   */
  lemma TabsLevels(n: Node)
    requires WellKinded(n) && n.kind == Tabs
    ensures forall i :: 0 <= i < |n.children| ==> n.children[i].kind == Tab
    ensures forall i, j :: 0 <= i < |n.children| && 0 <= j < |n.children[i].children| ==>
      n.children[i].children[j].kind == Group
    ensures forall i, j, m ::
      0 <= i < |n.children| && 0 <= j < |n.children[i].children| && 0 <= m < |n.children[i].children[j].children| ==>
      n.children[i].children[j].children[m].kind in {Button, ButtonGroup, CheckBox, ComboBox, EditBox, LabelControl}
  {
    forall i | 0 <= i < |n.children| ensures WellKinded(n.children[i]) && n.children[i].kind == Tab {
    }
    forall i, j | 0 <= i < |n.children| && 0 <= j < |n.children[i].children|
      ensures WellKinded(n.children[i].children[j]) && n.children[i].children[j].kind == Group
    {
      assert WellKinded(n.children[i]);
    }
  }

  /** The nodes under the `j`-th child are nodes of the tree. */
  lemma {:induction false} PreOrderAllMember(cs: seq<Node>, j: nat, m: Node)
    requires j < |cs| && m in PreOrder(cs[j])
    ensures m in PreOrderAll(cs)
    decreases cs
  {
    if j > 0 {
      PreOrderAllMember(cs[1..], j - 1, m);
    }
  }

  /** Every node met in pre-order is itself shaped. */
  lemma {:induction false} PreOrderShaped(n: Node, m: Node)
    requires Shaped(n) && m in PreOrder(n)
    ensures Shaped(m)
    decreases n
  {
    if m != n {
      PreOrderAllShaped(n.children, m);
    }
  }

  lemma {:induction false} PreOrderAllShaped(cs: seq<Node>, m: Node)
    requires forall i :: 0 <= i < |cs| ==> Shaped(cs[i])
    requires m in PreOrderAll(cs)
    ensures Shaped(m)
    decreases cs
  {
    if m in PreOrder(cs[0]) {
      PreOrderShaped(cs[0], m);
    } else {
      PreOrderAllShaped(cs[1..], m);
    }
  }

  /** Every node met in pre-order of a validated tree is itself valid. */
  lemma {:induction false} PreOrderWellKinded(n: Node, m: Node)
    requires WellKinded(n) && m in PreOrder(n)
    ensures WellKinded(m)
    decreases n
  {
    if m != n {
      PreOrderAllWellKinded(n.children, m);
    }
  }

  lemma {:induction false} PreOrderAllWellKinded(cs: seq<Node>, m: Node)
    requires forall i :: 0 <= i < |cs| ==> WellKinded(cs[i])
    requires m in PreOrderAll(cs)
    ensures WellKinded(m)
    decreases cs
  {
    if m in PreOrder(cs[0]) {
      PreOrderWellKinded(cs[0], m);
    } else {
      PreOrderAllWellKinded(cs[1..], m);
    }
  }

  /** Every node of the list carries exactly the fields its kind declares. */
  predicate Fits(ns: seq<Node>) {
    forall i :: 0 <= i < |ns| ==> |ns[i].attrs| == |FieldNames(ns[i].kind)|
  }

  lemma FitsAppend(a: seq<Node>, b: seq<Node>)
    requires Fits(a) && Fits(b)
    ensures Fits(a + b)
  {
    forall i | 0 <= i < |a + b| ensures |(a + b)[i].attrs| == |FieldNames((a + b)[i].kind)| {
      if i >= |a| {
        assert (a + b)[i] == b[i - |a|];
      }
    }
  }

  lemma FitsTail(ns: seq<Node>)
    requires |ns| > 0 && Fits(ns)
    ensures Fits(ns[1..])
  {
    forall i | 0 <= i < |ns[1..]| ensures |ns[1..][i].attrs| == |FieldNames(ns[1..][i].kind)| {
      assert ns[1..][i] == ns[i + 1];
    }
  }

  /** Every node met in pre-order carries exactly the fields its kind declares. */
  lemma {:induction false} PreOrderFits(n: Node)
    requires Shaped(n)
    ensures Fits(PreOrder(n))
  {
    forall i | 0 <= i < |PreOrder(n)| ensures |PreOrder(n)[i].attrs| == |FieldNames(PreOrder(n)[i].kind)| {
      PreOrderShaped(n, PreOrder(n)[i]);
    }
  }

  lemma {:induction false} PreOrderAllFits(cs: seq<Node>)
    requires forall i :: 0 <= i < |cs| ==> Shaped(cs[i])
    ensures Fits(PreOrderAll(cs))
  {
    forall i | 0 <= i < |PreOrderAll(cs)|
      ensures |PreOrderAll(cs)[i].attrs| == |FieldNames(PreOrderAll(cs)[i].kind)|
    {
      PreOrderAllShaped(cs, PreOrderAll(cs)[i]);
    }
  }
}
