/** Serialisation of a model tree to custom-UI XML text (the model's `xml` method). */
module Render {
  import opened Wrappers
  import opened Kinds
  import opened Nodes
  import OrderedDict

  /** `key='value' ` for each pair in turn; values are copied raw, without any escaping. */
  function AttrText(ps: seq<(string, string)>): string {
    if |ps| == 0 then "" else ps[0].0 + "='" + ps[0].1 + "' " + AttrText(ps[1..])
  }

  /** The name and value of every field that is set, in declaration order. */
  function SetFields(names: seq<string>, vals: seq<Option<string>>): seq<(string, string)>
    requires |names| == |vals|
  {
    if |names| == 0 then []
    else (if vals[0].Some? then [(names[0], vals[0].value)] else []) + SetFields(names[1..], vals[1..])
  }

  /** The attributes a node emits: its `id`, then its set fields; `children` is never one. */
  function AttrPairs(n: Node): seq<(string, string)>
    requires |n.attrs| == |FieldNames(n.kind)|
  {
    [("id", n.id)] + SetFields(FieldNames(n.kind), n.attrs)
  }

  /**
   * `<name attributes/>` for a node without children; otherwise `<name attributes>`, the
   * rendering of each child in order, and `</name>`.
   */
  function Xml(n: Node): string
    requires Shaped(n)
    decreases n
  {
    var name := ExcelName(n.kind);
    var close := "</" + name + ">";
    "<" + name + " " + AttrText(AttrPairs(n))
      + if |n.children| == 0 then "/>" else ">" + XmlAll(n.children) + close
  }

  function XmlAll(cs: seq<Node>): string
    requires forall i :: 0 <= i < |cs| ==> Shaped(cs[i])
    decreases cs
  {
    if |cs| == 0 then "" else Xml(cs[0]) + XmlAll(cs[1..])
  }

  /** A pair is emitted exactly when its field is set to that value. */
  lemma {:induction false} SetFieldsExact(names: seq<string>, vals: seq<Option<string>>, p: (string, string))
    requires |names| == |vals|
    ensures p in SetFields(names, vals) <==> exists i :: 0 <= i < |names| && names[i] == p.0 && vals[i] == Some(p.1)
    decreases |names|
  {
    if |names| > 0 {
      SetFieldsExact(names[1..], vals[1..], p);
      var head := if vals[0].Some? then [(names[0], vals[0].value)] else [];
      assert SetFields(names, vals) == head + SetFields(names[1..], vals[1..]);
      if exists i :: 0 <= i < |names| && names[i] == p.0 && vals[i] == Some(p.1) {
        var i :| 0 <= i < |names| && names[i] == p.0 && vals[i] == Some(p.1);
        if i > 0 {
          assert names[1..][i - 1] == p.0 && vals[1..][i - 1] == Some(p.1);
        }
      }
      if p in SetFields(names[1..], vals[1..]) {
        var i :| 0 <= i < |names[1..]| && names[1..][i] == p.0 && vals[1..][i] == Some(p.1);
        assert names[i + 1] == p.0 && vals[i + 1] == Some(p.1);
      }
    }
  }

  /** Only declared field names are emitted. */
  lemma {:induction false} SetFieldsKeys(names: seq<string>, vals: seq<Option<string>>, k: string)
    requires |names| == |vals|
    requires k in OrderedDict.Keys(SetFields(names, vals))
    ensures k in names
    decreases |names|
  {
    var head := if vals[0].Some? then [(names[0], vals[0].value)] else [];
    OrderedDict.KeysAppend(head, SetFields(names[1..], vals[1..]));
    if k != names[0] {
      SetFieldsKeys(names[1..], vals[1..], k);
    }
  }

  /** With distinct field names, no attribute is emitted twice. */
  lemma {:induction false} SetFieldsOnce(names: seq<string>, vals: seq<Option<string>>)
    requires |names| == |vals|
    requires forall i, j :: 0 <= i < j < |names| ==> names[i] != names[j]
    ensures OrderedDict.NoDupKeys(SetFields(names, vals))
    decreases |names|
  {
    if |names| > 0 {
      SetFieldsOnce(names[1..], vals[1..]);
      if vals[0].Some? {
        assert SetFields(names, vals) == [(names[0], vals[0].value)] + SetFields(names[1..], vals[1..]);
        if names[0] in OrderedDict.Keys(SetFields(names[1..], vals[1..])) {
          SetFieldsKeys(names[1..], vals[1..], names[0]);
          assert false;
        }
      } else {
        assert SetFields(names, vals) == SetFields(names[1..], vals[1..]);
      }
    }
  }

  /**
   * The attributes of a node: `id` with the node's id, and each declared field exactly
   * when it is set, with its value; no attribute appears twice.
   */
  lemma AttrPairsExact(n: Node, p: (string, string))
    requires |n.attrs| == |FieldNames(n.kind)|
    ensures p in AttrPairs(n) <==>
      p == ("id", n.id) || exists i :: 0 <= i < |n.attrs| && FieldNames(n.kind)[i] == p.0 && n.attrs[i] == Some(p.1)
    ensures OrderedDict.NoDupKeys(AttrPairs(n))
  {
    var names := FieldNames(n.kind);
    SetFieldsExact(names, n.attrs, p);
    FieldNamesDistinct(n.kind);
    SetFieldsOnce(names, n.attrs);
    if "id" in OrderedDict.Keys(SetFields(names, n.attrs)) {
      SetFieldsKeys(names, n.attrs, "id");
    }
    assert AttrPairs(n)[1..] == SetFields(names, n.attrs);
  }

  /** A rendering ends in `/>` exactly when the node has no children. */
  lemma SelfClosingIffLeaf(n: Node)
    requires Shaped(n)
    ensures |Xml(n)| >= 2
    ensures Xml(n)[|Xml(n)| - 2..] == "/>" <==> |n.children| == 0
  {
    var name := ExcelName(n.kind);
    ExcelNamePlain(n.kind);
    var head := "<" + name + " " + AttrText(AttrPairs(n));
    var close := "</" + name + ">";
    var tail := if |n.children| == 0 then "/>" else ">" + XmlAll(n.children) + close;
    var x := Xml(n);
    assert x == head + tail;
    assert x[|x| - 2..] == tail[|tail| - 2..];
    if |n.children| > 0 {
      assert tail[|tail| - 2] == name[|name| - 1];
      assert IsLetter(name[|name| - 1]);
    }
  }

  /** The example button: `id` "b1", label "Save", size "large", onAction "doSave". */
  function SaveButton(): Node {
    Node(Button, "b1", [None, Some("Save"), None, None, Some("large"), Some("doSave"), None, None], [])
  }

  lemma SaveButtonPairs()
    ensures AttrPairs(SaveButton()) == [("id", "b1"), ("label", "Save"), ("size", "large"), ("onAction", "doSave")]
  {
    ButtonPairs(SaveButton(), "Save", "large", "doSave");
  }

  /** A button with only a label, a size and an action emits its id and those three, in that order. */
  lemma ButtonPairs(n: Node, a: string, b: string, c: string)
    requires n.kind == Button && |n.attrs| == 8
    requires n.attrs[0] == None && n.attrs[2] == None && n.attrs[3] == None && n.attrs[6] == None && n.attrs[7] == None
    requires n.attrs[1] == Some(a) && n.attrs[4] == Some(b) && n.attrs[5] == Some(c)
    ensures |n.attrs| == |FieldNames(n.kind)|
    ensures AttrPairs(n) == [("id", n.id), ("label", a), ("size", b), ("onAction", c)]
  {
    UiNames();
    SetFieldsThree(UiFields, n.attrs, a, b, c);
  }

  lemma UiNames()
    ensures FieldNames(Button) == UiFields
    ensures |UiFields| == 8 && UiFields[1] == "label" && UiFields[4] == "size" && UiFields[5] == "onAction"
  {
  }

  /** Eight fields of which only the second, fifth and sixth are set emit exactly those three. */
  lemma SetFieldsThree(names: seq<string>, vals: seq<Option<string>>, a: string, b: string, c: string)
    requires |names| == 8 && |vals| == 8
    requires vals[0] == None && vals[2] == None && vals[3] == None && vals[6] == None && vals[7] == None
    requires vals[1] == Some(a) && vals[4] == Some(b) && vals[5] == Some(c)
    ensures SetFields(names, vals) == [(names[1], a), (names[4], b), (names[5], c)]
  {
    SetFieldsFirst(names, vals, a);
    SetFieldsMiddle(names, vals, b, c);
  }

  lemma SetFieldsFirst(names: seq<string>, vals: seq<Option<string>>, a: string)
    requires |names| == 8 && |vals| == 8
    requires vals[0] == None && vals[1] == Some(a) && vals[2] == None && vals[3] == None
    ensures SetFields(names, vals) == [(names[1], a)] + SetFields(names[4..], vals[4..])
  {
    var rest := SetFields(names[4..], vals[4..]);
    SetFieldsStep(names, vals, 3);
    SetFieldsStep(names, vals, 2);
    assert SetFields(names[2..], vals[2..]) == rest;
    SetFieldsStep(names, vals, 1);
    assert SetFields(names[1..], vals[1..]) == [(names[1], a)] + rest;
    SetFieldsStep(names, vals, 0);
    assert names[0..] == names && vals[0..] == vals;
  }

  lemma SetFieldsMiddle(names: seq<string>, vals: seq<Option<string>>, b: string, c: string)
    requires |names| == 8 && |vals| == 8
    requires vals[4] == Some(b) && vals[5] == Some(c) && vals[6] == None && vals[7] == None
    ensures SetFields(names[4..], vals[4..]) == [(names[4], b), (names[5], c)]
  {
    SetFieldsLast(names, vals, c);
    SetFieldsStep(names, vals, 4);
  }

  lemma SetFieldsLast(names: seq<string>, vals: seq<Option<string>>, c: string)
    requires |names| == 8 && |vals| == 8
    requires vals[5] == Some(c) && vals[6] == None && vals[7] == None
    ensures SetFields(names[5..], vals[5..]) == [(names[5], c)]
  {
    SetFieldsStep(names, vals, 7);
    assert names[8..] == [] && vals[8..] == [];
    SetFieldsStep(names, vals, 6);
    SetFieldsStep(names, vals, 5);
  }

  lemma SetFieldsStep(names: seq<string>, vals: seq<Option<string>>, i: nat)
    requires |names| == |vals| && i < |names|
    ensures SetFields(names[i..], vals[i..])
         == (if vals[i].Some? then [(names[i], vals[i].value)] else []) + SetFields(names[i + 1..], vals[i + 1..])
  {
    assert names[i..][1..] == names[i + 1..] && vals[i..][1..] == vals[i + 1..];
  }

  lemma SaveButtonText(ps: seq<(string, string)>)
    requires ps == [("id", "b1"), ("label", "Save"), ("size", "large"), ("onAction", "doSave")]
    ensures AttrText(ps) == "id='b1' " + ("label='Save' " + ("size='large' " + ("onAction='doSave' " + "")))
  {
    assert AttrText(ps[4..]) == "";
    assert AttrText(ps[3..]) == "onAction='doSave' " + AttrText(ps[4..]);
    assert AttrText(ps[2..]) == "size='large' " + AttrText(ps[3..]);
    assert AttrText(ps[1..]) == "label='Save' " + AttrText(ps[2..]);
  }

  /** A button with only its required fields renders its attributes in declaration order. */
  lemma ButtonExample()
    ensures Xml(SaveButton()) == "<button " + "id='b1' " + "label='Save' " + "size='large' " + "onAction='doSave' " + "/>"
  {
    var n := SaveButton();
    SaveButtonPairs();
    SaveButtonText(AttrPairs(n));
    ExcelNameValue(Button);
    LeafText(n, "button", "id='b1' ", "label='Save' ", "size='large' ", "onAction='doSave' ");
    ButtonTagOpen();
  }

  lemma ButtonTagOpen()
    ensures "<" + "button" + " " == "<button "
  {
  }

  /** A node without children is its start tag closed with `/>`. */
  lemma LeafText(n: Node, name: string, a: string, b: string, c: string, d: string)
    requires Shaped(n) && |n.children| == 0 && ExcelName(n.kind) == name
    requires AttrText(AttrPairs(n)) == a + (b + (c + (d + "")))
    ensures Xml(n) == "<" + name + " " + a + b + c + d + "/>"
  {
    Regroup("<" + name + " ", a, b, c, d, "/>");
  }

  lemma Regroup(p: string, a: string, b: string, c: string, d: string, q: string)
    ensures p + (a + (b + (c + (d + "")))) + q == p + a + b + c + d + q
  {
    assert d + "" == d;
  }
}
