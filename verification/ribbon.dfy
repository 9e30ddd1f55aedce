/**
 * The `Ribbon` front end: the compatibility gate between the model's callbacks and the
 * router, the customUI document around the model's XML, the getter and setter macro
 * stubs, and the routes text that strings them together.
 */
module Ribbon {
  import opened Wrappers
  import opened OrderedDict
  import opened Kinds
  import opened Nodes
  import Text
  import Render
  import Parse
  import Walks
  import Resolve

  /** Raised when the model refers to callbacks the router does not provide. */
  datatype ConfigurationError = ConfigurationError(missing: set<string>)

  /**
   * A constructed ribbon: its model tree, the names its router offers (the router is only
   * ever asked for its keys) and the macro stubs generated so far.
   */
  datatype Ribbon = Ribbon(model: Node, routerKeys: set<string>, getters: seq<string>, setters: seq<string>)

  /**
   * The macro template table, keyed by field name, and `str.format(name=..., function=...)`
   * applied to a template; both belong to a module that is not part of this model.
   */
  datatype Templates = Templates(table: map<string, string>, format: (string, string, string) -> string)

  /** The placeholder function name every stub is formatted with. */
  const Placeholder: string := "dosome"

  // ---------------------------------------------------------------------------------------
  // Construction

  /** `_check_model_and_router`: every callback of the model must be a key of the router. */
  function CheckModelAndRouter(model: Node, routerKeys: set<string>): (r: Outcome<ConfigurationError>)
    requires Shaped(model)
    ensures r.Pass? <==> forall c :: c in Walks.Callbacks(model) ==> c in routerKeys
    ensures r.Fail? ==> forall c :: c in r.error.missing <==> c in Walks.Callbacks(model) && c !in routerKeys
  {
    var missing := set c | c in Walks.Callbacks(model) && c !in routerKeys;
    if missing != {} then Fail(ConfigurationError(missing))
    else
      assert forall c :: c in Walks.Callbacks(model) ==> c in routerKeys by {
        forall c | c in Walks.Callbacks(model) ensures c in routerKeys {
          assert c in missing || c in routerKeys;
        }
      }
      Pass
  }

  /** `Ribbon(model, router)`: the gate runs first; a ribbon starts with no stubs. */
  function New(model: Node, routerKeys: set<string>): (r: Result<Ribbon, ConfigurationError>)
    requires Shaped(model)
    ensures r.Success? <==> CheckModelAndRouter(model, routerKeys).Pass?
    ensures r.Failure? ==> r.error == CheckModelAndRouter(model, routerKeys).error
    ensures r.Success? ==> r.value == Ribbon(model, routerKeys, [], [])
  {
    match CheckModelAndRouter(model, routerKeys)
    case Fail(e) => Failure(e)
    case Pass => Success(Ribbon(model, routerKeys, [], []))
  }

  /**
   * The text the error is raised with, for the missing names listed in `order` (Python's
   * set iteration order, which nothing promises).
   */
  function ErrorMessage(e: ConfigurationError, order: seq<string>): (msg: string)
    requires forall c :: c in order <==> c in e.missing
    ensures forall c :: c in e.missing ==> Text.IsInfix(c, msg)
  {
    var msg := "Model and Router are not compatible, functions " + Text.Join(order, " ,") + " are missing.";
    assert forall c :: c in e.missing ==> Text.IsInfix(c, msg) by {
      forall c | c in e.missing ensures Text.IsInfix(c, msg) {
        var i :| 0 <= i < |order| && order[i] == c;
        Text.JoinContains(order, " ,", i);
        Text.InfixOfConcat(c, "Model and Router are not compatible, functions ", Text.Join(order, " ,"), " are missing.");
      }
    }
    msg
  }

  /** Only the set of callbacks matters: a model whose callbacks repeat is judged the same. */
  lemma CheckIgnoresRepeats(a: Node, b: Node, routerKeys: set<string>)
    requires Shaped(a) && Shaped(b)
    requires forall c :: c in Walks.Callbacks(a) <==> c in Walks.Callbacks(b)
    ensures CheckModelAndRouter(a, routerKeys) == CheckModelAndRouter(b, routerKeys)
  {
    var ma := set c | c in Walks.Callbacks(a) && c !in routerKeys;
    var mb := set c | c in Walks.Callbacks(b) && c !in routerKeys;
    assert ma == mb;
  }

  /**
   * A button whose only callback is `v`, checked against a router that does not offer `v`,
   * is refused naming `v` alone.
   */
  lemma CheckNamesMissing(b: Node, v: string, routerKeys: set<string>)
    requires Walks.OnlyOnAction(b, v) && v !in routerKeys
    ensures Shaped(b)
    ensures CheckModelAndRouter(b, routerKeys) == Fail(ConfigurationError({v}))
  {
    Walks.ButtonCallback(b, v);
    SoleCallbackMissing(b, v, routerKeys);
  }

  lemma SoleCallbackMissing(m: Node, v: string, routerKeys: set<string>)
    requires Shaped(m) && Walks.Callbacks(m) == [v] && v !in routerKeys
    ensures CheckModelAndRouter(m, routerKeys) == Fail(ConfigurationError({v}))
  {
    var r := CheckModelAndRouter(m, routerKeys);
    assert Walks.Callbacks(m)[0] == v;
    assert r.Fail?;
    forall c ensures c in r.error.missing <==> c == v {
      assert c in Walks.Callbacks(m) <==> c == v;
    }
    assert r.error.missing == {v};
  }

  // ---------------------------------------------------------------------------------------
  // The customUI document

  const Prologue: string := "<customUI xmlns=\"http://schemas.microsoft.com/office/2006/01/customui\">\n\t<ribbon startFromScratch=\"false\">"
  const Epilogue: string := "</ribbon>\n</customUI>"

  /** `xml()`: the model's XML inside the fixed customUI and ribbon elements. */
  function Xml(r: Ribbon): (s: string)
    requires Shaped(r.model)
    ensures |s| == |Prologue| + |Render.Xml(r.model)| + |Epilogue|
    ensures s[..|Prologue|] == Prologue
    ensures s[|Prologue|..|s| - |Epilogue|] == Render.Xml(r.model)
    ensures s[|s| - |Epilogue|..] == Epilogue
  {
    Prologue + Render.Xml(r.model) + Epilogue
  }

  /** Reads a customUI document back: the envelope, then exactly one element inside it. */
  function ParseDocument(s: string): (r: Option<Node>)
  {
    if |s| < |Prologue| + |Epilogue| || s[..|Prologue|] != Prologue || s[|s| - |Epilogue|..] != Epilogue then None
    else match Parse.ParseNode(s[|Prologue|..|s| - |Epilogue|])
      case Some((n, rest)) => if rest == "" then Some(n) else None
      case None => None
  }

  /** The document determines the model: reading it back gives the tree it was made from. */
  lemma DocumentRoundTrip(r: Ribbon)
    requires Shaped(r.model) && Parse.QuoteFree(r.model)
    ensures ParseDocument(Xml(r)) == Some(r.model)
  {
    Parse.XmlRoundTrip(r.model);
  }

  // ---------------------------------------------------------------------------------------
  // Getter and setter stubs

  /** The start of a stub's comment line, `GETTER` or `SETTER` being the tag. */
  function StubIntro(tag: string): string {
    "'AUTOMATIC " + tag + " for '"
  }

  /**
   * One macro stub: a comment line naming the generated callback, the formatted template
   * and a blank line. The callback name can be read back from the stub.
   */
  function Entry(tag: string, key: string, body: string): (e: string)
    ensures |e| >= |StubIntro(tag)| + |key|
    ensures e[..|StubIntro(tag)|] == StubIntro(tag)
    ensures e[|StubIntro(tag)|..|StubIntro(tag)| + |key|] == key
    ensures e[|StubIntro(tag)| + |key|..] == "' \n" + body + "\n\n"
  {
    StubIntro(tag) + key + ("' \n" + body + "\n\n")
  }

  /**
   * The stubs for a dictionary, in its order. A value missing from the template table
   * raises `KeyError` there: the stubs made before it are kept and the value is reported.
   */
  function Entries(tag: string, d: Dict, t: Templates): (r: (seq<string>, Option<string>))
    ensures r.1.None? <==> forall i :: 0 <= i < |d| ==> d[i].1 in t.table
    ensures r.1.Some? ==> (r.1.value !in t.table &&
      exists i :: 0 <= i < |d| && d[i].1 == r.1.value && |r.0| == i && forall j :: 0 <= j < i ==> d[j].1 in t.table)
    ensures r.1.None? ==> |r.0| == |d|
    ensures forall i :: 0 <= i < |r.0| ==> (d[i].1 in t.table &&
      r.0[i] == Entry(tag, d[i].0, t.format(t.table[d[i].1], d[i].0, Placeholder)))
    decreases |d|
  {
    if |d| == 0 then ([], None)
    else if d[0].1 !in t.table then ([], Some(d[0].1))
    else
      var rest := Entries(tag, d[1..], t);
      ([Entry(tag, d[0].0, t.format(t.table[d[0].1], d[0].0, Placeholder))] + rest.0, rest.1)
  }

  /**
   * `make_getters`: fill the model's unset getters, then append one stub per generated
   * name. On a missing template the model stays filled and the stubs made so far stay
   * appended, as they do when Python raises.
   */
  function MakeGetters(r: Ribbon, t: Templates): (res: (Ribbon, Option<string>))
    requires Shaped(r.model)
    ensures Shaped(res.0.model)
    ensures res.0.routerKeys == r.routerKeys && res.0.setters == r.setters
    ensures |res.0.getters| >= |r.getters| && res.0.getters[..|r.getters|] == r.getters
  {
    var (m, d) := Resolve.Getters(r.model, Resolve.DefaultModule);
    var (es, err) := Entries("GETTER", d, t);
    (r.(model := m, getters := r.getters + es), err)
  }

  /** `make_setters`: the same over the setter fields. */
  function MakeSetters(r: Ribbon, t: Templates): (res: (Ribbon, Option<string>))
    requires Shaped(r.model)
    ensures Shaped(res.0.model)
    ensures res.0.routerKeys == r.routerKeys && res.0.getters == r.getters
    ensures |res.0.setters| >= |r.setters| && res.0.setters[..|r.setters|] == r.setters
  {
    var (m, d) := Resolve.Setters(r.model, Resolve.DefaultModule);
    var (es, err) := Entries("SETTER", d, t);
    (r.(model := m, setters := r.setters + es), err)
  }

  /**
   * With a `getText` template, building getters never fails and adds exactly one stub per
   * entry of `get_getters`'s dictionary, in its order.
   */
  lemma MakeGettersStubs(r: Ribbon, t: Templates)
    requires Shaped(r.model) && "getText" in t.table
    ensures var d := Resolve.Getters(r.model, Resolve.DefaultModule).1;
      var res := MakeGetters(r, t);
      && res.1 == None
      && res.0.model == Resolve.Getters(r.model, Resolve.DefaultModule).0
      && |res.0.getters| == |r.getters| + |d|
      && forall i :: 0 <= i < |d| ==>
           res.0.getters[|r.getters| + i] == Entry("GETTER", d[i].0, t.format(t.table["getText"], d[i].0, Placeholder))
  {
    var d := Resolve.Getters(r.model, Resolve.DefaultModule).1;
    Resolve.GettersAreGetText(r.model, Resolve.DefaultModule);
    assert forall i :: 0 <= i < |d| ==> d[i].1 == "getText" by {
      forall i | 0 <= i < |d| ensures d[i].1 == "getText" {
        assert d[i] in d;
      }
    }
    EntriesUniform("GETTER", d, t, "getText");
  }

  /**
   * On a validated model with a `setText` template, building setters never fails and adds
   * exactly one stub per entry of `get_setters`'s dictionary, in its order.
   */
  lemma MakeSettersStubs(r: Ribbon, t: Templates)
    requires WellKinded(r.model) && "setText" in t.table
    ensures Shaped(r.model)
    ensures var d := Resolve.Setters(r.model, Resolve.DefaultModule).1;
      var res := MakeSetters(r, t);
      && res.1 == None
      && res.0.model == Resolve.Setters(r.model, Resolve.DefaultModule).0
      && |res.0.setters| == |r.setters| + |d|
      && forall i :: 0 <= i < |d| ==>
           res.0.setters[|r.setters| + i] == Entry("SETTER", d[i].0, t.format(t.table["setText"], d[i].0, Placeholder))
  {
    WellKindedIsShaped(r.model);
    var d := Resolve.Setters(r.model, Resolve.DefaultModule).1;
    Resolve.SettersAreSetText(r.model, Resolve.DefaultModule);
    assert forall i :: 0 <= i < |d| ==> d[i].1 == "setText" by {
      forall i | 0 <= i < |d| ensures d[i].1 == "setText" {
        assert d[i] in d;
      }
    }
    EntriesUniform("SETTER", d, t, "setText");
  }

  /** When every value has a template, there is one stub per entry and nothing is reported. */
  lemma EntriesUniform(tag: string, d: Dict, t: Templates, v: string)
    requires v in t.table
    requires forall i :: 0 <= i < |d| ==> d[i].1 == v
    ensures Entries(tag, d, t).1 == None && |Entries(tag, d, t).0| == |d|
    ensures forall i :: 0 <= i < |d| ==> Entries(tag, d, t).0[i] == Entry(tag, d[i].0, t.format(t.table[v], d[i].0, Placeholder))
  {
  }

  /** Building getters a second time adds nothing and changes nothing. */
  lemma MakeGettersTwice(r: Ribbon, t: Templates)
    requires Shaped(r.model)
    ensures MakeGetters(MakeGetters(r, t).0, t) == (MakeGetters(r, t).0, None)
  {
    Resolve.ResolveIdempotent(r.model, Resolve.DefaultModule, Resolve.DefaultModule, GetterFields);
    var r1 := MakeGetters(r, t).0;
    assert r1.getters + [] == r1.getters;
  }

  /** Building setters a second time adds nothing and changes nothing. */
  lemma MakeSettersTwice(r: Ribbon, t: Templates)
    requires Shaped(r.model)
    ensures MakeSetters(MakeSetters(r, t).0, t) == (MakeSetters(r, t).0, None)
  {
    Resolve.ResolveIdempotent(r.model, Resolve.DefaultModule, Resolve.DefaultModule, SetterFields);
    var r1 := MakeSetters(r, t).0;
    assert r1.setters + [] == r1.setters;
  }

  // ---------------------------------------------------------------------------------------
  // The routes text

  /** The first line of the routes text, stamped with the generation time. */
  function Header(timestamp: string): string {
    "'xlribbon generated at " + timestamp + "\n\n"
  }

  const Footer: string := "\n\n Automatic routes\n"

  /**
   * `write_routes`, with the clock reading passed in: the header, the getter stubs joined
   * by newlines, the setter stubs joined by newlines, and the fixed trailer.
   */
  function WriteRoutes(r: Ribbon, timestamp: string): (s: string)
    ensures |s| == |Header(timestamp)| + |Text.Join(r.getters, "\n")| + |Text.Join(r.setters, "\n")| + |Footer|
    ensures s[..|Header(timestamp)|] == Header(timestamp)
    ensures s[|s| - |Footer|..] == Footer
    ensures s[|Header(timestamp)|..|s| - |Footer|] == Text.Join(r.getters, "\n") + Text.Join(r.setters, "\n")
  {
    Header(timestamp) + Text.Join(r.getters, "\n") + Text.Join(r.setters, "\n") + Footer
  }

  /** `x` occurs in `s`, and so does `y`, starting after that occurrence of `x` ends. */
  ghost predicate OccursBefore(x: string, y: string, s: string) {
    exists p, q :: Text.InfixAt(x, s, p) && Text.InfixAt(y, s, q) && p + |x| <= q
  }

  /**
   * Every getter stub appears in the routes text, every setter stub too, and each getter
   * stub ends before any setter stub starts.
   */
  lemma GettersBeforeSetters(r: Ribbon, timestamp: string, i: nat, j: nat)
    requires i < |r.getters| && j < |r.setters|
    ensures OccursBefore(r.getters[i], r.setters[j], WriteRoutes(r, timestamp))
  {
    var g := Text.Join(r.getters, "\n");
    var st := Text.Join(r.setters, "\n");
    Text.JoinSlice(r.getters, "\n", i);
    Text.JoinSlice(r.setters, "\n", j);
    var og := Text.Offset(r.getters, "\n", i);
    var os := Text.Offset(r.setters, "\n", j);
    assert Text.InfixAt(r.getters[i], g, og);
    assert Text.InfixAt(r.setters[j], st, os);
    PartsInOrder(r.getters[i], r.setters[j], Header(timestamp), g, st, Footer, og, os);
  }

  /** Something inside the second of four parts occurs before something inside the third. */
  lemma PartsInOrder(x: string, y: string, a: string, m1: string, m2: string, b: string, o1: int, o2: int)
    requires Text.InfixAt(x, m1, o1) && Text.InfixAt(y, m2, o2)
    ensures OccursBefore(x, y, a + m1 + m2 + b)
  {
    InfixInside(x, a, m1, m2 + b, o1);
    InfixInside(y, a + m1, m2, b, o2);
    assert a + m1 + (m2 + b) == a + m1 + m2 + b;
    assert Text.InfixAt(x, a + m1 + m2 + b, |a| + o1);
    assert Text.InfixAt(y, a + m1 + m2 + b, |a + m1| + o2);
  }

  /** An occurrence inside the middle part is an occurrence in the whole, shifted by the first part. */
  lemma InfixInside(x: string, a: string, m: string, b: string, o: int)
    requires Text.InfixAt(x, m, o)
    ensures Text.InfixAt(x, a + m + b, |a| + o)
  {
    assert (a + m + b)[|a| + o..|a| + o + |x|] == m[o..o + |x|];
  }
}
