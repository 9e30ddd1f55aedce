# xlribbon core in Dafny

xlribbon describes an Excel ribbon as a tree of pydantic models: tabs, groups, buttons,
check boxes, combo boxes, edit boxes, label controls and items. It renders the tree as
customUI XML. Before rendering, it fills every unset getter and setter field with a
generated VBA callback name and writes one macro stub per generated name. This project
models that core as pure functions over an immutable tree and proves what the code
promises about it.

Modules, following the two source files:

- `Kinds`: the control kinds, the fields each kind declares (in pydantic field order, with
  inherited fields first), the callback, getter and setter field sets, the required
  fields, and the element name (`__excel_name__`).
- `Nodes`: the tree. Each node holds a kind, an `id`, one optional value per declared
  field, and its children. A `children` of None and an empty list are the same here,
  because every walk tests `if self.children`.
- `Render`: `XMLBase.xml`. `Parse` reads that rendering back and proves the round trip.
- `Walks`: `get_callbacks` and `get_images`, both pre-order walks.
- `OrderedDict`: Python's insertion-ordered `dict`. Assigning to a key that is already
  present replaces its value in place; `update` assigns entry by entry.
- `Resolve`: `get_getters` and `get_setters`, as one walk parameterised by the field set.
- `Ribbon`: the `Ribbon` class, which covers the router gate, the customUI envelope, the
  getter and setter stubs, and the routes text.
- `Text` and `Wrappers`: `str.join`, lower-casing, `Option` and `Result`.

Three points of the code matter throughout the model:

- Attribute values are emitted raw, not escaped (`xlribbon/xmlmodels.py:18`). A quote
  inside a value therefore changes the document's meaning (`Parse.QuoteInValueCollides`).
- The children's dictionaries are merged with `dict.update` (`xlribbon/xmlmodels.py:49`),
  which overwrites. When two nodes generate the same name, the later record replaces the
  earlier one in place. Names are unique when ids are (`Resolve.UniqueIdsUniqueNames`).
- `getPressed` is in `CALLBACKS`, not in `GETTERS` (`xlribbon/xmlmodels.py:5-6`), so
  `get_getters` never fills it.

## Model

| member | source | states |
|---|---|---|
| Kinds.ExcelName | xlribbon/xmlmodels.py:28-30 | `__excel_name__`: the class name with its first character lower-cased. Its contract is given by `Kinds.ExcelNameValue`, `Kinds.ExcelNameShape` and `Kinds.KindOfExcelName`. |
| Kinds.ExcelNameValue | xlribbon/xmlmodels.py:28-30 | The element name of each kind, e.g. CheckBox gives `checkBox` and ButtonGroup gives `buttonGroup`. |
| Kinds.ExcelNameShape | xlribbon/xmlmodels.py:28-30 | The element name has the class name's length. Only the first character changes, from its upper-case letter to the matching lower-case one. |
| Kinds.KindOfExcelName | xlribbon/xmlmodels.py:28-30 | Different kinds get different element names: the kind can be recovered from its name. |
| Kinds.FieldNames | xlribbon/xmlmodels.py:74-130 | The fields each kind declares besides `id` and `children`: inherited fields first, in pydantic's order. Its contract is given by `Kinds.FieldNamesDistinct`, `Kinds.FieldNamesPlain`, `Kinds.OnlyGetTextDeclared` and `Kinds.SetterFieldsDeclared`. |
| Kinds.FieldNamesDistinct | xlribbon/xmlmodels.py:74-130 | No kind declares a field twice, even where a subclass re-declares an inherited field. No kind declares `id` among its own fields. |
| Kinds.FieldNamesPlain | xlribbon/xmlmodels.py:74-130 | Every declared field name is a non-empty word of ASCII letters. |
| Kinds.IsRequired | xlribbon/xmlmodels.py:74-130 | The fields declared without a default. Its contract is given by `Kinds.RequiredAreDeclared` and `Kinds.OnActionRequirement`. |
| Kinds.RequiredAreDeclared | xlribbon/xmlmodels.py:74-130 | Every required field is a field its kind declares. |
| Kinds.OnActionRequirement | xlribbon/xmlmodels.py:80-91 | CheckBox re-declares `onAction` with a default, so a check box may leave it unset. A button must set it, as the UI base demands. |
| Kinds.MayContain | xlribbon/xmlmodels.py:98-130 | The kinds each typed `children` list accepts. Its contract is given by `Nodes.TabsLevels`. |
| Nodes.WellKinded | xlribbon/xmlmodels.py:74-130 | What validation guarantees of a tree: every node has one value per declared field, sets its required fields, and holds only children its kind accepts. Its contract is given by `Nodes.WellKindedIsShaped`, `Nodes.PreOrderWellKinded` and `Nodes.TabsLevels`. |
| Nodes.WellKindedIsShaped | xlribbon/xmlmodels.py:74-130 | A validated node, and each node below it, has exactly one value per declared field. |
| Nodes.PreOrderWellKinded | xlribbon/xmlmodels.py:74-130 | Every node met in a validated tree is itself validated. |
| Nodes.TabsLevels | xlribbon/xmlmodels.py:118-130 | A validated `tabs` tree has tabs as children, groups below them, and below the groups only buttons, button groups, check boxes, combo boxes, edit boxes and label controls. |
| Kinds.OnlyGetTextDeclared | xlribbon/xmlmodels.py:6 | Of the getter names, only `getText` is a declared field, and only LabelControl declares it. |
| Kinds.SetterFieldsDeclared | xlribbon/xmlmodels.py:98-115 | A declared setter field is either `onChange`, which is required wherever it is declared, or LabelControl's `setText`. |
| Render.Xml | xlribbon/xmlmodels.py:14-26 | `XMLBase.xml`. Its contract is given by `Render.AttrPairsExact`, `Render.SelfClosingIffLeaf`, `Render.ButtonExample` and `Parse.XmlRoundTrip`. |
| Render.XmlAll | xlribbon/xmlmodels.py:21-22 | The children's renderings, one after another in order. `Parse.ParseXmlAll` reads them back to the very children. |
| Parse.ParseXmlAll | xlribbon/xmlmodels.py:21-22 | The concatenated renderings of quote-free children, followed by a closing tag, read back to exactly those children, and the closing tag is left unread. |
| Render.AttrPairsExact | xlribbon/xmlmodels.py:17-18 | A node emits exactly its `id` and each field that is not None, with that field's value. No attribute name is emitted twice. |
| Render.SelfClosingIffLeaf | xlribbon/xmlmodels.py:19-25 | A rendering ends in `/>` exactly when the node has no children. |
| Render.ButtonExample | xlribbon/xmlmodels.py:14-26 | A save button renders as `<button id='b1' label='Save' size='large' onAction='doSave' />`. |
| Parse.XmlRoundTrip | xlribbon/xmlmodels.py:14-26 | If no id or value contains a quote, the rendering can be read back to the very tree it came from. The rendering is therefore injective on such trees. |
| Parse.QuoteInValueCollides | xlribbon/xmlmodels.py:18 | A `getText` value containing `' setText='` renders exactly like a node that sets both fields: values are not escaped. |
| Walks.Callbacks | xlribbon/xmlmodels.py:32-37 | `get_callbacks`. Its contract is given by `Walks.CallbacksPreOrder`, `Walks.CallbacksExact` and `Walks.CallbacksKeepDuplicates`. |
| Walks.CallbacksPreOrder | xlribbon/xmlmodels.py:32-37 | `get_callbacks` lists each node's own set `onAction`/`getPressed` values, taking the nodes in pre-order. |
| Walks.CallbacksExact | xlribbon/xmlmodels.py:32-37 | A name is returned exactly when some node of the tree sets a callback field to it. |
| Walks.CallbacksKeepDuplicates | xlribbon/xmlmodels.py:34-36 | A group of two buttons whose only callback is the same name `v` gives `[v, v]`: nothing is deduplicated. |
| Walks.Images | xlribbon/xmlmodels.py:65-71 | `get_images`. Its contract is given by `Walks.ImagesPreOrder` and `Walks.ImagesExact`. |
| Walks.ImagesPreOrder | xlribbon/xmlmodels.py:65-71 | `get_images` lists each node's own non-empty `image`, taking the nodes in pre-order. |
| Walks.ImagesExact | xlribbon/xmlmodels.py:65-71 | A name is returned exactly when it is non-empty and some node's `image` is set to it. Kinds without an `image` field contribute nothing. |
| OrderedDict.Put | xlribbon/xmlmodels.py:45 | Dict assignment makes the key map to the new value and leaves other keys alone. A new key is appended; an existing key keeps its place. |
| OrderedDict.UpdateNested | xlribbon/xmlmodels.py:49 | Merging a child's dictionary that was itself built by merges is the same as merging the child's entries one by one. |
| Resolve.GenName | xlribbon/xmlmodels.py:45-46 | A generated name is the module name, a dot, the id, an underscore and the field name, each at its own position. |
| Resolve.GenNameInjective | xlribbon/xmlmodels.py:45 | With the module and the field fixed, the generated name determines the id. |
| Resolve.GenNameFieldInjective | xlribbon/xmlmodels.py:45 | With the module and the id fixed, the generated name determines the field. |
| Resolve.NamesApart | xlribbon/xmlmodels.py:45 | Under one module, getter (or setter) fields of controls with different ids get different names. |
| Resolve.SlotsOfNoDup | xlribbon/xmlmodels.py:41-49 | Nodes with pairwise different ids, walked with one module name, never record the same name twice. |
| Resolve.UniqueIdsUniqueNames | xlribbon/xmlmodels.py:39-63 | If no two nodes of the tree share an id and the root uses the default module, no name is generated twice. The dictionary is then every record of the walk, in walk order, with nothing overwritten. |
| Resolve.Resolve | xlribbon/xmlmodels.py:39-63 | The walk keeps the kind, id and number of children. It leaves set fields and non-target fields unchanged, and fills each unset target field with `module.id_field`. |
| Resolve.Getters | xlribbon/xmlmodels.py:39-50 | `get_getters` is the walk over the getter fields and keeps the root's kind and id. Its full contract is that of `Resolve.Resolve`, `Resolve.ResolveGet` and `Resolve.GettersAreGetText`. |
| Resolve.Setters | xlribbon/xmlmodels.py:52-63 | `get_setters` is the walk over the setter fields and keeps the root's kind and id. Its full contract is that of `Resolve.Resolve`, `Resolve.ResolveGet` and `Resolve.SettersAreSetText`. |
| Resolve.ResolveLog | xlribbon/xmlmodels.py:41-49 | The returned dictionary is the walk's records, taken in pre-order and merged key by key. |
| Resolve.ResolveGet | xlribbon/xmlmodels.py:39-63 | The dictionary maps `k` to `f` exactly when some node left target field `f` unset and `k` is its generated name. The root uses the given module name; every other node uses `xlribbon`. |
| Resolve.NameDeterminesField | xlribbon/xmlmodels.py:45 | Getter (or setter) fields end in different letters, so a generated name determines its field. |
| Resolve.FilledNameIsKey | xlribbon/xmlmodels.py:44-46 | A field the walk fills now holds a key of the dictionary, and that key maps to the field's name. |
| Resolve.ResolveWrites | xlribbon/xmlmodels.py:45-46 | Every reported name has been written into the model: some node of the result holds it in the reported field. |
| Resolve.ResolveSettles | xlribbon/xmlmodels.py:43-46 | After the walk, no node leaves a target field unset. |
| Resolve.ResolveIdempotent | xlribbon/xmlmodels.py:39-63 | A second walk, with any module name, changes nothing and returns an empty dictionary. |
| Resolve.ResolveKeepsWellKinded | xlribbon/xmlmodels.py:46 | Filling fields keeps a validated tree valid. |
| Resolve.ResolveUnique | xlribbon/xmlmodels.py:41-49 | When no two records share a name, the dictionary is exactly the records, in walk order. |
| Resolve.GettersAreGetText | xlribbon/xmlmodels.py:42-45 | Every value `get_getters` reports is `getText`. |
| Resolve.SettersAreSetText | xlribbon/xmlmodels.py:55-58 | On a validated tree, every value `get_setters` reports is `setText`, because `onChange` is required wherever it is declared. |
| Resolve.ModuleNameAtRootOnly | xlribbon/xmlmodels.py:45-49 | With module `mymod`, a label control and its child label control get `mymod.a_getText` and `xlribbon.b_getText`, in that order. |
| Ribbon.CheckModelAndRouter | xlribbon/ribbon.py:19-28 | The gate passes exactly when every callback of the model is a router key. On failure, the error names exactly the callbacks the router lacks. |
| Ribbon.CheckIgnoresRepeats | xlribbon/ribbon.py:22-24 | Only the set of callbacks matters, so repeated names make no difference. |
| Ribbon.CheckNamesMissing | xlribbon/ribbon.py:19-28 | A button whose only callback is `v`, checked against a router that lacks `v`, is refused with exactly `{v}` missing. |
| Ribbon.ErrorMessage | xlribbon/ribbon.py:26-28 | The error text mentions every missing callback, whatever order the set is listed in. |
| Ribbon.New | xlribbon/ribbon.py:11-16 | Construction succeeds exactly when the gate passes. A new ribbon starts with empty getter and setter lists. |
| Ribbon.Xml | xlribbon/ribbon.py:30-36 | The document is the fixed customUI prologue, then the model's XML, then the fixed epilogue. |
| Ribbon.DocumentRoundTrip | xlribbon/ribbon.py:30-36 | The document reads back to the model it was made from, if no value contains a quote. |
| Ribbon.Entry | xlribbon/ribbon.py:43 | A stub is `'AUTOMATIC GETTER for '` (or `SETTER`), the callback name, `' `, a newline, the formatted template and a blank line. The callback name can be read back from its place. |
| Ribbon.Entries | xlribbon/ribbon.py:41-43 | One stub per dictionary entry, in order. A value without a template stops the loop: the first such value is reported, and the stubs made before it are kept. |
| Ribbon.MakeGetters | xlribbon/ribbon.py:38-43 | `make_getters` appends to the getter list and keeps the earlier stubs, the setters and the router. |
| Ribbon.MakeSetters | xlribbon/ribbon.py:45-50 | `make_setters` appends to the setter list and keeps the earlier stubs, the getters and the router. |
| Ribbon.MakeGettersStubs | xlribbon/ribbon.py:38-43 | With a `getText` template, `make_getters` never fails. It adds exactly one stub, from that template, per entry of `get_getters`, in dictionary order. |
| Ribbon.MakeSettersStubs | xlribbon/ribbon.py:45-50 | On a validated model with a `setText` template, `make_setters` never fails. It adds exactly one stub per entry of `get_setters`, in dictionary order. |
| Ribbon.MakeGettersTwice | xlribbon/ribbon.py:38-43 | Calling `make_getters` a second time adds no stub and changes nothing. |
| Ribbon.MakeSettersTwice | xlribbon/ribbon.py:45-50 | Calling `make_setters` a second time adds no stub and changes nothing. |
| Ribbon.WriteRoutes | xlribbon/ribbon.py:56-66 | The routes text is the timestamped header, then the getter stubs joined by newlines, then the setter stubs joined by newlines, then the fixed `Automatic routes` trailer. |
| Ribbon.GettersBeforeSetters | xlribbon/ribbon.py:61-66 | Every getter stub and every setter stub occurs in the routes text, and each getter stub ends before any setter stub starts. |

## Left out

- `Ribbon.write_ui` is left out: it creates `customUI.xml` in exclusive mode, which is file I/O.
- `datetime.now()` in `write_routes` is left out: the clock is non-deterministic, so the timestamp is a parameter of `Ribbon.WriteRoutes`.
- The `TEMPLATES` table and `str.format` are left out: `xlribbon/templates.py` is not part of this model. Both enter through the `Ribbon.Templates` parameter.
- Pydantic validation at construction is not modelled: required fields, children types, and the order in which union members are tried. `Nodes.WellKinded` states what validation guarantees, and lemmas that need it take it as a precondition. `ValidationError` is not modelled.
- Pydantic's `__setattr__` is modelled as a plain assignment. Assignment validation is off by default, so the assigned value is not checked.
- `model.dict()` in `Ribbon.__init__` is left out: the stored copy is never read.
- `xlribbon/router.py` is left out. The ribbon only uses the router's key set, so the router is that set.
- Building the `.xlam` archive and injecting VBA into Excel are external automation that is not part of this model.
- Direct instances of `XMLBase` and `UI` are left out: they are base classes, and only the concrete kinds are modelled.
- `Kinds.ExcelName` lower-cases ASCII only. Python's `str.lower` covers all of Unicode, but every class name is ASCII.
- Parse.XmlRoundTrip requires that no id or value contains a quote, because the code does not escape values. `Parse.QuoteInValueCollides` shows what goes wrong otherwise.
- Resolve.UniqueIdsUniqueNames requires the root to be walked with the default module name. With another module name, a root name can equal a child's name even when the ids differ: module `xlribbon.c` with root id `d` gives `xlribbon.c.d_getText`, and so does a child with id `c.d`.
- Resolve.FilledNameIsKey is stated for the node the walk starts from. Every child is itself walked the same way with the default module name, and `Resolve.ResolveGet` states which names the dictionary holds for every node.
- Ribbon.ErrorMessage takes the iteration order of the missing-name set as a parameter, because Python's set order is unspecified. It states only that every missing name occurs in the text.
- Ribbon.MakeGetters and Ribbon.MakeSetters return the missing template key as a value, where Python raises `KeyError`. As in Python, the filled model and the stubs made before the failure are kept.
