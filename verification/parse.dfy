/**
 * A reader for the XML the model renders. It is the left inverse of `Render.Xml` on trees
 * whose ids and field values hold no single quote, which shows that rendering loses
 * nothing there; attribute values are not escaped, so a quote inside one can make two
 * different trees render the same text.
 */
module Parse {
  import opened Wrappers
  import opened Kinds
  import opened Nodes
  import opened Render
  import OrderedDict

  /** Splits `s` at its first `c` into the text before and the text after it. */
  function Split(s: string, c: char): (r: Option<(string, string)>)
    ensures r.Some? ==> s == r.value.0 + [c] + r.value.1 && c !in r.value.0
  {
    if |s| == 0 then None
    else if s[0] == c then Some(([], s[1..]))
    else match Split(s[1..], c)
      case None => None
      case Some((a, b)) => Some(([s[0]] + a, b))
  }

  /** Reads `key='value' ` pairs up to the `/` or `>` that ends a start tag. */
  function ParseAttrs(s: string): (r: Option<(seq<(string, string)>, string)>)
    ensures r.Some? ==> |r.value.1| <= |s|
    decreases |s|
  {
    if |s| == 0 then None
    else if s[0] == '/' || s[0] == '>' then Some(([], s))
    else match Split(s, '=')
      case None => None
      case Some((key, r1)) =>
        if |r1| == 0 || r1[0] != '\'' then None
        else match Split(r1[1..], '\'')
          case None => None
          case Some((val, r2)) =>
            if |r2| == 0 || r2[0] != ' ' then None
            else match ParseAttrs(r2[1..])
              case None => None
              case Some((ps, r3)) => Some(([(key, val)] + ps, r3))
  }

  /** The value each declared field receives from the attributes read. */
  function FieldsFrom(names: seq<string>, ps: seq<(string, string)>): (r: seq<Option<string>>)
    ensures |r| == |names|
  {
    seq(|names|, i requires 0 <= i < |names| => OrderedDict.Get(ps, names[i]))
  }

  /** Reads one element and everything nested in it; returns the node and the text after it. */
  function ParseNode(s: string): (r: Option<(Node, string)>)
    ensures r.Some? ==> |r.value.1| < |s|
    decreases |s|, 2
  {
    if |s| == 0 || s[0] != '<' then None
    else match Split(s[1..], ' ')
      case None => None
      case Some((name, r1)) =>
        match KindOfName(name)
        case None => None
        case Some(k) =>
          match ParseAttrs(r1)
          case None => None
          case Some((ps, r2)) => ParseRest(k, name, ps, r2)
  }

  /** Completes an element once its name and attributes are read: `/>`, or `>` children `</name>`. */
  function ParseRest(k: Kind, name: string, ps: seq<(string, string)>, s: string): (r: Option<(Node, string)>)
    ensures r.Some? ==> |r.value.1| < |s|
    decreases |s|, 2
  {
    if |ps| == 0 || ps[0].0 != "id" then None
    else
      var attrs := FieldsFrom(FieldNames(k), ps[1..]);
      if |s| >= 2 && s[..2] == "/>" then Some((Node(k, ps[0].1, attrs, []), s[2..]))
      else if |s| >= 1 && s[0] == '>' then
        match ParseChildren(s[1..])
        case None => None
        case Some((cs, r)) =>
          var close := "</" + name + ">";
          if |close| <= |r| && r[..|close|] == close then Some((Node(k, ps[0].1, attrs, cs), r[|close|..]))
          else None
      else None
  }

  /** Reads sibling elements up to the closing tag of their parent. */
  function ParseChildren(s: string): (r: Option<(seq<Node>, string)>)
    ensures r.Some? ==> |r.value.1| <= |s|
    decreases |s|, 3
  {
    if |s| >= 2 && s[..2] == "</" then Some(([], s))
    else match ParseNode(s)
      case None => None
      case Some((c, r)) =>
        match ParseChildren(r)
        case None => None
        case Some((cs, r')) => Some(([c] + cs, r'))
  }

  /** No id or field value anywhere in the tree contains a single quote. */
  predicate QuoteFree(n: Node)
    decreases n
  {
    && '\'' !in n.id
    && (forall i :: 0 <= i < |n.attrs| && n.attrs[i].Some? ==> '\'' !in n.attrs[i].value)
    && forall i :: 0 <= i < |n.children| ==> QuoteFree(n.children[i])
  }

  /** Attribute pairs that read back unambiguously: plain-word keys, quote-free values. */
  predicate Readable(ps: seq<(string, string)>) {
    forall i :: 0 <= i < |ps| ==> IsWord(ps[i].0) && '\'' !in ps[i].1
  }

  lemma {:induction false} SplitAt(p: string, c: char, rest: string)
    requires c !in p
    ensures Split(p + [c] + rest, c) == Some((p, rest))
    decreases |p|
  {
    if |p| > 0 {
      assert (p + [c] + rest)[1..] == p[1..] + [c] + rest;
      SplitAt(p[1..], c, rest);
      assert [p[0]] + p[1..] == p;
    } else {
      assert p + [c] + rest == [c] + rest;
    }
  }

  /** One `key='value' ` pair is read off the front of the text. */
  lemma ParseAttrStep(key: string, val: string, more: string)
    requires IsWord(key) && '\'' !in val
    ensures ParseAttrs(key + "='" + val + "' " + more) ==
      match ParseAttrs(more)
      case None => None
      case Some((ps, r)) => Some(([(key, val)] + ps, r))
  {
    var s := key + "='" + val + "' " + more;
    var r1 := ['\''] + val + ['\''] + [' '] + more;
    assert s == key + ['='] + r1;
    assert IsLetter(key[0]);
    assert s[0] == key[0];
    assert '=' !in key by {
      forall i | 0 <= i < |key| ensures key[i] != '=' {
        assert IsLetter(key[i]);
      }
    }
    SplitAt(key, '=', r1);
    assert r1[1..] == val + ['\''] + ([' '] + more);
    SplitAt(val, '\'', [' '] + more);
    assert ([' '] + more)[1..] == more;
  }

  /** Attribute text reads back as the pairs it was written from. */
  lemma {:induction false} ParseAttrText(ps: seq<(string, string)>, rest: string)
    requires Readable(ps)
    requires |rest| > 0 && (rest[0] == '/' || rest[0] == '>')
    ensures ParseAttrs(AttrText(ps) + rest) == Some((ps, rest))
    decreases |ps|
  {
    if |ps| == 0 {
      assert AttrText(ps) + rest == rest;
    } else {
      var key := ps[0].0;
      var val := ps[0].1;
      var more := AttrText(ps[1..]) + rest;
      assert AttrText(ps) + rest == key + "='" + val + "' " + more;
      ParseAttrStep(key, val, more);
      ParseAttrText(ps[1..], rest);
      assert [(key, val)] + ps[1..] == ps;
    }
  }

  /** Looking a declared field up among the emitted pairs recovers the field's value. */
  lemma {:induction false} GetSetFields(names: seq<string>, vals: seq<Option<string>>, i: nat)
    requires |names| == |vals| && i < |names|
    requires forall a, b :: 0 <= a < b < |names| ==> names[a] != names[b]
    ensures OrderedDict.Get(SetFields(names, vals), names[i]) == vals[i]
    decreases |names|
  {
    var tail := SetFields(names[1..], vals[1..]);
    if vals[0].Some? {
      assert SetFields(names, vals) == [(names[0], vals[0].value)] + tail;
    } else {
      assert SetFields(names, vals) == tail;
    }
    if i == 0 {
      if vals[0].None? && names[0] in OrderedDict.Keys(tail) {
        SetFieldsKeys(names[1..], vals[1..], names[0]);
        assert false;
      }
    } else {
      forall a, b | 0 <= a < b < |names[1..]| ensures names[1..][a] != names[1..][b] {
        assert names[1..][a] == names[a + 1] && names[1..][b] == names[b + 1];
      }
      GetSetFields(names[1..], vals[1..], i - 1);
      assert names[1..][i - 1] == names[i] && vals[1..][i - 1] == vals[i];
      assert names[0] != names[i];
    }
  }

  /** The pairs a node emits read back as a readable list. */
  lemma AttrPairsReadable(n: Node)
    requires |n.attrs| == |FieldNames(n.kind)| && QuoteFree(n)
    ensures Readable(AttrPairs(n))
  {
    var ps := AttrPairs(n);
    FieldNamesPlain(n.kind);
    forall i | 0 <= i < |ps| ensures IsWord(ps[i].0) && '\'' !in ps[i].1 {
      AttrPairsExact(n, ps[i]);
      assert "id" == ['i', 'd'];
    }
  }

  /** The fields read back from a node's pairs are the node's fields. */
  lemma FieldsRoundTrip(n: Node)
    requires |n.attrs| == |FieldNames(n.kind)|
    ensures FieldsFrom(FieldNames(n.kind), AttrPairs(n)[1..]) == n.attrs
  {
    var names := FieldNames(n.kind);
    FieldNamesDistinct(n.kind);
    assert AttrPairs(n)[1..] == SetFields(names, n.attrs);
    forall i | 0 <= i < |names| ensures FieldsFrom(names, AttrPairs(n)[1..])[i] == n.attrs[i] {
      GetSetFields(names, n.attrs, i);
    }
  }

  /** The start of an element is read up to the end of its attributes. */
  lemma ParseStartTag(n: Node, t: string)
    requires |n.attrs| == |FieldNames(n.kind)| && QuoteFree(n)
    requires |t| > 0 && (t[0] == '/' || t[0] == '>')
    ensures ParseNode("<" + ExcelName(n.kind) + " " + AttrText(AttrPairs(n)) + t)
      == ParseRest(n.kind, ExcelName(n.kind), AttrPairs(n), t)
  {
    var name := ExcelName(n.kind);
    var a := AttrText(AttrPairs(n));
    var s := "<" + name + " " + a + t;
    assert s[1..] == name + [' '] + (a + t);
    ExcelNamePlain(n.kind);
    assert ' ' !in name by {
      forall i | 0 <= i < |name| ensures name[i] != ' ' {
        assert IsLetter(name[i]);
      }
    }
    SplitAt(name, ' ', a + t);
    KindOfExcelName(n.kind);
    AttrPairsReadable(n);
    ParseAttrText(AttrPairs(n), t);
  }

  lemma ParseRestLeaf(k: Kind, name: string, ps: seq<(string, string)>, rest: string)
    requires |ps| > 0 && ps[0].0 == "id"
    ensures ParseRest(k, name, ps, "/>" + rest) == Some((Node(k, ps[0].1, FieldsFrom(FieldNames(k), ps[1..]), []), rest))
  {
    var s := "/>" + rest;
    assert s[..2] == "/>";
    assert s[2..] == rest;
  }

  lemma ParseRestInner(k: Kind, name: string, ps: seq<(string, string)>, body: string, cs: seq<Node>, rest: string)
    requires |ps| > 0 && ps[0].0 == "id"
    requires var close := "</" + name + ">"; ParseChildren(body + (close + rest)) == Some((cs, close + rest))
    ensures var close := "</" + name + ">";
      ParseRest(k, name, ps, ">" + body + close + rest) == Some((Node(k, ps[0].1, FieldsFrom(FieldNames(k), ps[1..]), cs), rest))
  {
    InnerShape(body, "</" + name + ">", rest);
    AfterPrefix("</" + name + ">", rest);
  }

  lemma InnerShape(body: string, close: string, rest: string)
    ensures var s := ">" + body + close + rest;
      s[0] == '>' && !(|s| >= 2 && s[..2] == "/>") && s[1..] == body + (close + rest)
  {
    var s := ">" + body + close + rest;
    if |s| >= 2 {
      assert s[..2][0] == '>';
    }
    assert s[1..] == body + (close + rest);
  }

  lemma AfterPrefix(p: string, rest: string)
    ensures |p| <= |p + rest| && (p + rest)[..|p|] == p && (p + rest)[|p|..] == rest
  {
  }

  /** Reading a rendered node gives back the node and leaves the text after it. */
  lemma {:induction false} ParseXml(n: Node, rest: string)
    requires Shaped(n) && QuoteFree(n)
    ensures ParseNode(Xml(n) + rest) == Some((n, rest))
    decreases n
  {
    var name := ExcelName(n.kind);
    var a := AttrText(AttrPairs(n));
    FieldsRoundTrip(n);
    if |n.children| == 0 {
      Regroup4("<" + name + " ", a, "/>", rest);
      assert Xml(n) + rest == "<" + name + " " + a + ("/>" + rest);
      ParseStartTag(n, "/>" + rest);
      ParseRestLeaf(n.kind, name, AttrPairs(n), rest);
    } else {
      var body := XmlAll(n.children);
      var close := "</" + name + ">";
      ParseXmlAll(n.children, close + rest);
      RegroupInner("<" + name + " ", a, body, close, rest);
      assert Xml(n) + rest == "<" + name + " " + a + (">" + body + close + rest);
      ParseStartTag(n, ">" + body + close + rest);
      ParseRestInner(n.kind, name, AttrPairs(n), body, n.children, rest);
    }
  }

  lemma Regroup4(h: string, a: string, t: string, rest: string)
    ensures h + a + t + rest == h + a + (t + rest)
  {
  }

  lemma RegroupInner(h: string, a: string, body: string, close: string, rest: string)
    ensures h + a + (">" + body + close) + rest == h + a + (">" + body + close + rest)
  {
  }

  lemma ParseChildrenStep(s: string, c: Node, r: string)
    requires |s| > 1 && s[0] == '<' && s[1] != '/'
    requires ParseNode(s) == Some((c, r))
    ensures ParseChildren(s) == match ParseChildren(r)
      case None => None
      case Some((cs, r')) => Some(([c] + cs, r'))
  {
    assert s[..2] != "</" by {
      assert s[..2][1] == s[1];
    }
  }

  lemma {:induction false} ParseXmlAll(cs: seq<Node>, rest: string)
    requires forall i :: 0 <= i < |cs| ==> Shaped(cs[i]) && QuoteFree(cs[i])
    requires |rest| >= 2 && rest[..2] == "</"
    ensures ParseChildren(XmlAll(cs) + rest) == Some((cs, rest))
    decreases cs
  {
    if |cs| == 0 {
      assert XmlAll(cs) + rest == rest;
    } else {
      ParseFirstChild(cs, rest);
      ParseXmlAll(cs[1..], rest);
      assert [cs[0]] + cs[1..] == cs;
    }
  }

  /** Reading a list of renderings takes the first element, then reads on after it. */
  lemma ParseFirstChild(cs: seq<Node>, rest: string)
    requires |cs| > 0 && forall i :: 0 <= i < |cs| ==> Shaped(cs[i]) && QuoteFree(cs[i])
    ensures ParseChildren(XmlAll(cs) + rest) == match ParseChildren(XmlAll(cs[1..]) + rest)
      case None => None
      case Some((more, r')) => Some(([cs[0]] + more, r'))
  {
    var more := XmlAll(cs[1..]) + rest;
    assert XmlAll(cs) + rest == Xml(cs[0]) + more;
    XmlStart(cs[0]);
    ParseXml(cs[0], more);
    ParseAfterElement(Xml(cs[0]), more, cs[0]);
  }

  /** An element that reads back whole is followed by the reading of what comes after it. */
  lemma ParseAfterElement(x: string, more: string, c: Node)
    requires |x| > 1 && x[0] == '<' && IsLetter(x[1])
    requires ParseNode(x + more) == Some((c, more))
    ensures ParseChildren(x + more) == match ParseChildren(more)
      case None => None
      case Some((cs, r')) => Some(([c] + cs, r'))
  {
    var s := x + more;
    assert s[0] == x[0] && s[1] == x[1];
    ParseChildrenStep(s, c, more);
  }

  /** A rendering opens with `<` followed by a letter. */
  lemma XmlStart(n: Node)
    requires Shaped(n)
    ensures |Xml(n)| > 1 && Xml(n)[0] == '<' && IsLetter(Xml(n)[1])
  {
    var name := ExcelName(n.kind);
    ExcelNamePlain(n.kind);
    var close := "</" + name + ">";
    var rest := " " + AttrText(AttrPairs(n)) + if |n.children| == 0 then "/>" else ">" + XmlAll(n.children) + close;
    assert Xml(n) == "<" + name + rest;
  }

  /** Reading back the rendering of a quote-free tree gives the tree. */
  lemma XmlRoundTrip(n: Node)
    requires Shaped(n) && QuoteFree(n)
    ensures ParseNode(Xml(n)) == Some((n, ""))
  {
    ParseXml(n, "");
    assert Xml(n) + "" == Xml(n);
  }

  /**
   * A quote in a value breaks the rendering: a label control whose `getText` smuggles in a
   * second attribute renders exactly like one that sets both fields.
   */
  lemma QuoteInValueCollides()
    ensures var smuggled := Node(LabelControl, "l", [Some("a' setText='b"), None], []);
            var honest := Node(LabelControl, "l", [Some("a"), Some("b")], []);
            smuggled != honest && Xml(smuggled) == Xml(honest)
  {
    assert "a' setText='b" == "a" + "' setText='" + "b";
    SmuggledNode("l", "a", "b");
  }

  /** The collision for any id and any pair of values. */
  lemma SmuggledNode(id: string, v1: string, v2: string)
    ensures var smuggled := Node(LabelControl, id, [Some(v1 + "' setText='" + v2), None], []);
            var honest := Node(LabelControl, id, [Some(v1), Some(v2)], []);
            Xml(smuggled) == Xml(honest)
  {
    var smuggled := Node(LabelControl, id, [Some(v1 + "' setText='" + v2), None], []);
    var honest := Node(LabelControl, id, [Some(v1), Some(v2)], []);
    assert FieldNames(LabelControl) == ["getText", "setText"];
    assert SetFields(["getText", "setText"], smuggled.attrs) == [("getText", v1 + "' setText='" + v2)] by {
      assert SetFields(["setText"], [None]) == [];
    }
    assert SetFields(["getText", "setText"], honest.attrs) == [("getText", v1), ("setText", v2)] by {
      assert SetFields(["setText"], [Some(v2)]) == [("setText", v2)];
    }
    var ps := [("getText", v1 + "' " + "setText" + "='" + v2)];
    var qs := [("getText", v1), ("setText", v2)];
    assert v1 + "' setText='" + v2 == v1 + "' " + "setText" + "='" + v2;
    SmuggledPair("getText", v1, "setText", v2);
    assert AttrPairs(smuggled) == [("id", id)] + ps;
    assert AttrPairs(honest) == [("id", id)] + qs;
    assert ([("id", id)] + ps)[1..] == ps;
    assert ([("id", id)] + qs)[1..] == qs;
    assert AttrText(AttrPairs(smuggled)) == AttrText(AttrPairs(honest));
  }

  lemma SmuggledPair(k1: string, v1: string, k2: string, v2: string)
    ensures AttrText([(k1, v1 + "' " + k2 + "='" + v2)]) == AttrText([(k1, v1), (k2, v2)])
  {
    assert [(k1, v1), (k2, v2)][1..] == [(k2, v2)];
    assert [(k2, v2)][1..] == [];
  }
}
