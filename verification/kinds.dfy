/**
 * The ten control kinds of the ribbon model, with the fields each one declares, which of
 * them are required, which children each kind accepts, and the element name it renders as.
 */
module Kinds {
  import opened Wrappers
  import Text

  datatype Kind =
    | Tabs | Tab | Group | Button | ButtonGroup | CheckBox | ComboBox | EditBox | LabelControl | Item

  /** The model class name of each kind. */
  function ClassName(k: Kind): string {
    match k
    case Tabs => "Tabs"
    case Tab => "Tab"
    case Group => "Group"
    case Button => "Button"
    case ButtonGroup => "ButtonGroup"
    case CheckBox => "CheckBox"
    case ComboBox => "ComboBox"
    case EditBox => "EditBox"
    case LabelControl => "LabelControl"
    case Item => "Item"
  }

  /** The XML element name: the class name with its first character lower-cased. */
  function ExcelName(k: Kind): string {
    Text.LowerFirst(ClassName(k))
  }

  /** Fields shared by every control derived from the UI base, in declaration order. */
  const UiFields: seq<string> :=
    ["enabled", "label", "image", "imageMso", "size", "onAction", "screentip", "supertip"]

  /**
   * The declared fields of a kind other than `id` and `children`, in the order the model
   * lists them: inherited fields first, and a field a subclass re-declares keeps the place it
   * had in the base class (CheckBox's `onAction` stays among the UI fields).
   */
  function FieldNames(k: Kind): seq<string> {
    match k
    case Button => UiFields
    case CheckBox => UiFields + ["getPressed"]
    case ComboBox => UiFields + ["sizeString", "onChange"]
    case EditBox => ["label", "onChange"]
    case ButtonGroup => []
    case LabelControl => ["getText", "setText"]
    case Item | Group | Tab | Tabs => ["label"]
  }

  /** Fields whose values name callbacks that the router must provide. */
  const CallbackFields: set<string> := {"onAction", "getPressed"}

  /** Getter fields that are filled with a generated name when unset. */
  const GetterFields: set<string> := {"getVisible", "getText", "getLabel"}

  /** Setter fields that are filled with a generated name when unset. */
  const SetterFields: set<string> := {"onChange", "setText"}

  /** The field that names an image asset. */
  const ImageField: string := "image"

  /** Fields declared without a default, which model validation insists on. */
  predicate IsRequired(k: Kind, f: string) {
    match k
    case Button => f in {"label", "size", "onAction"}
    case CheckBox => f in {"label", "size", "getPressed"}
    case ComboBox => f in {"label", "size", "onAction", "sizeString", "onChange"}
    case EditBox => f in {"label", "onChange"}
    case ButtonGroup | LabelControl => false
    case Item | Group | Tab | Tabs => f == "label"
  }

  /** The kinds a children list may hold; kinds whose children are untyped accept any kind. */
  predicate MayContain(parent: Kind, child: Kind) {
    match parent
    case ComboBox => child == Item
    case ButtonGroup => child == Button
    case Group => child in {Button, ButtonGroup, CheckBox, ComboBox, EditBox, LabelControl}
    case Tab => child == Group
    case Tabs => child == Tab
    case Button | CheckBox | EditBox | LabelControl | Item => true
  }

  /** The kind rendered under an element name, if any. */
  function KindOfName(name: string): Option<Kind> {
    if name == "tabs" then Some(Tabs)
    else if name == "tab" then Some(Tab)
    else if name == "group" then Some(Group)
    else if name == "button" then Some(Button)
    else if name == "buttonGroup" then Some(ButtonGroup)
    else if name == "checkBox" then Some(CheckBox)
    else if name == "comboBox" then Some(ComboBox)
    else if name == "editBox" then Some(EditBox)
    else if name == "labelControl" then Some(LabelControl)
    else if name == "item" then Some(Item)
    else None
  }

  /** The element name of each kind, spelled out. */
  lemma ExcelNameValue(k: Kind)
    ensures ExcelName(k) == match k
      case Tabs => "tabs"
      case Tab => "tab"
      case Group => "group"
      case Button => "button"
      case ButtonGroup => "buttonGroup"
      case CheckBox => "checkBox"
      case ComboBox => "comboBox"
      case EditBox => "editBox"
      case LabelControl => "labelControl"
      case Item => "item"
  {
    match k
    case Tabs => Initial("Tabs", "tabs");
    case Tab => Initial("Tab", "tab");
    case Group => Initial("Group", "group");
    case Button => Initial("Button", "button");
    case ButtonGroup => Initial("ButtonGroup", "buttonGroup");
    case CheckBox => Initial("CheckBox", "checkBox");
    case ComboBox => Initial("ComboBox", "comboBox");
    case EditBox => Initial("EditBox", "editBox");
    case LabelControl => Initial("LabelControl", "labelControl");
    case Item => Initial("Item", "item");
  }

  lemma Initial(s: string, t: string)
    requires |s| > 0 && |t| == |s| && t[0] == Text.Lower(s[0]) && t[1..] == s[1..]
    ensures Text.LowerFirst(s) == t
  {
    assert [t[0]] + t[1..] == t;
  }

  /**
   * Only the first character changes: it becomes the lower-case form of the class name's
   * initial, and the rest of the class name is kept as it is.
   */
  lemma ExcelNameShape(k: Kind)
    ensures |ExcelName(k)| == |ClassName(k)| > 0
    ensures ExcelName(k)[1..] == ClassName(k)[1..]
    ensures 'A' <= ClassName(k)[0] <= 'Z' && 'a' <= ExcelName(k)[0] <= 'z'
    ensures ExcelName(k)[0] as int - 'a' as int == ClassName(k)[0] as int - 'A' as int
  {
    ExcelNameValue(k);
  }

  /** Element names identify their kind, so distinct kinds render distinct elements. */
  lemma KindOfExcelName(k: Kind)
    ensures KindOfName(ExcelName(k)) == Some(k)
  {
    ExcelNameValue(k);
  }

  /** Element names are plain words: no blank, quote, `=`, `/` or `>` inside them. */
  lemma ExcelNamePlain(k: Kind)
    ensures IsWord(ExcelName(k))
  {
    ExcelNameValue(k);
    match k
    case Tabs => LettersOnly("tabs");
    case Tab => LettersOnly("tab");
    case Group => LettersOnly("group");
    case Button => LettersOnly("button");
    case ButtonGroup => LettersOnly("buttonGroup");
    case CheckBox => LettersOnly("checkBox");
    case ComboBox => LettersOnly("comboBox");
    case EditBox => LettersOnly("editBox");
    case LabelControl => LettersOnly("labelControl");
    case Item => LettersOnly("item");
  }

  predicate IsLetter(c: char) {
    'A' <= c <= 'Z' || 'a' <= c <= 'z'
  }

  predicate IsWord(s: string) {
    |s| > 0 && forall i :: 0 <= i < |s| ==> IsLetter(s[i])
  }

  lemma LettersOnly(s: string)
    requires s in {"tabs", "tab", "group", "button", "buttonGroup", "checkBox", "comboBox", "editBox", "labelControl", "item"}
    ensures forall i :: 0 <= i < |s| ==> IsLetter(s[i])
  {
  }

  /** No kind declares a field twice, and none declares `id` among its fields. */
  lemma FieldNamesDistinct(k: Kind)
    ensures forall i, j :: 0 <= i < j < |FieldNames(k)| ==> FieldNames(k)[i] != FieldNames(k)[j]
    ensures "id" !in FieldNames(k)
  {
  }

  /** Field names are plain words as well. */
  lemma FieldNamesPlain(k: Kind)
    ensures forall i :: 0 <= i < |FieldNames(k)| ==> IsWord(FieldNames(k)[i])
  {
    match k
    case Button => UiWords();
    case CheckBox => UiWords(); WordsAppend(UiFields, ["getPressed"]);
    case ComboBox => UiWords(); WordsAppend(UiFields, ["sizeString", "onChange"]);
    case EditBox => WordsAppend(["label"], ["onChange"]);
    case ButtonGroup =>
    case LabelControl => WordsAppend(["getText"], ["setText"]);
    case Item | Group | Tab | Tabs => WordsAppend(["label"], []);
  }

  lemma UiWords()
    ensures forall i :: 0 <= i < |UiFields| ==> IsWord(UiFields[i])
  {
  }

  lemma WordsAppend(a: seq<string>, b: seq<string>)
    requires forall i :: 0 <= i < |a| ==> IsWord(a[i])
    requires forall i :: 0 <= i < |b| ==> IsWord(b[i])
    ensures forall i :: 0 <= i < |a + b| ==> IsWord((a + b)[i])
  {
  }

  /** Of the getter fields, only `getText` is declared anywhere, and only by LabelControl. */
  lemma OnlyGetTextDeclared(k: Kind, f: string)
    requires f in FieldNames(k) && f in GetterFields
    ensures f == "getText" && k == LabelControl
  {
  }

  /**
   * Setter fields are `onChange` (required on ComboBox and EditBox) and `setText` (optional,
   * on LabelControl).
   */
  lemma SetterFieldsDeclared(k: Kind, f: string)
    requires f in FieldNames(k) && f in SetterFields
    ensures (f == "onChange" && IsRequired(k, f)) || (f == "setText" && k == LabelControl)
  {
  }

  /** A required field is always one the kind declares. */
  lemma RequiredAreDeclared(k: Kind, f: string)
    requires IsRequired(k, f)
    ensures f in FieldNames(k)
  {
    match k
    case Button => assert f in UiFields;
    case CheckBox => assert f in UiFields + ["getPressed"];
    case ComboBox => assert f in UiFields + ["sizeString", "onChange"];
    case _ =>
  }

  /**
   * CheckBox re-declares `onAction` with a default, so a check box may leave it unset,
   * while a button, like the UI base, must set it.
   */
  lemma OnActionRequirement()
    ensures "onAction" in FieldNames(CheckBox) && !IsRequired(CheckBox, "onAction")
    ensures IsRequired(Button, "onAction")
  {
    assert FieldNames(CheckBox)[5] == "onAction";
  }
}
