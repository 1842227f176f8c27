/** UI element selectors, the native condition used as a prefilter, and the final match (guest/src/ui_sidecar.rs). */
module Selector {
  import opened Wrappers
  import opened Strings

  /** The control types the tables know; every other id is printed as a number. */
  datatype ControlType =
    | Button | CheckBox | ComboBox | Custom | Document | Edit | Group | Hyperlink | Image | ListBox | ListItem
    | Menu | MenuItem | Pane | RadioButton | Tab | TabItem | TextLabel | Tree | TreeItem | Window
    | Other(id: int)

  datatype Element = Element(
    name: string, automationId: string, className: string, controlType: ControlType, value: string)

  datatype NativeSelector = Any | Property(key: string, value: string) | Containing(text: string)

  /** What is asked of the automation framework before the elements are looked at one by one. */
  datatype Condition = Everything | NameIs(v: string) | AutomationIdIs(v: string) | ClassNameIs(v: string)
                     | TypeIs(t: ControlType)

  const PREFIX := "ControlType."

  // ----- The two tables -----

  /** `native_control_type_id` on a normalized name */
  function TypeNamed(name: string): (r: Option<ControlType>)
    ensures r.Some? ==> name != "" && 'a' <= name[0] <= 'z' && !r.value.Other?
  {
    if name == "button" then Some(Button)
    else if name == "checkbox" then Some(CheckBox)
    else if name == "combobox" then Some(ComboBox)
    else if name == "custom" then Some(Custom)
    else if name == "document" then Some(Document)
    else if name == "edit" then Some(Edit)
    else if name == "group" then Some(Group)
    else if name == "hyperlink" then Some(Hyperlink)
    else if name == "image" then Some(Image)
    else if name == "list" then Some(ListBox)
    else if name == "listitem" then Some(ListItem)
    else if name == "menu" then Some(Menu)
    else if name == "menuitem" then Some(MenuItem)
    else if name == "pane" then Some(Pane)
    else if name == "radiobutton" then Some(RadioButton)
    else if name == "tab" then Some(Tab)
    else if name == "tabitem" then Some(TabItem)
    else if name == "text" then Some(TextLabel)
    else if name == "tree" then Some(Tree)
    else if name == "treeitem" then Some(TreeItem)
    else if name == "window" then Some(Window)
    else None
  }

  function Decimal(n: int): (s: string)
    ensures s != "" && (s[0] == '-' || IsDigit(s[0]))
    decreases if n < 0 then 1 - n else n
  {
    if n < 0 then "-" + Decimal(-n)
    else if n < 10 then [(48 + n) as char]
    else Decimal(n / 10) + [(48 + n % 10) as char]
  }

  /** `native_control_type_name` without its prefix */
  function TypeName(t: ControlType): (s: string) {
    match t
    case Button => "Button"
    case CheckBox => "CheckBox"
    case ComboBox => "ComboBox"
    case Custom => "Custom"
    case Document => "Document"
    case Edit => "Edit"
    case Group => "Group"
    case Hyperlink => "Hyperlink"
    case Image => "Image"
    case ListBox => "List"
    case ListItem => "ListItem"
    case Menu => "Menu"
    case MenuItem => "MenuItem"
    case Pane => "Pane"
    case RadioButton => "RadioButton"
    case Tab => "Tab"
    case TabItem => "TabItem"
    case TextLabel => "Text"
    case Tree => "Tree"
    case TreeItem => "TreeItem"
    case Window => "Window"
    case Other(id) => Decimal(id)
  }

  // ----- Matching -----

  /** `trim_start_matches(p)`: every leading copy of `p` is dropped. */
  function StripAll(p: string, s: string): (r: string)
    requires p != ""
    ensures !(p <= r)
    decreases |s|
  {
    if p <= s then StripAll(p, s[|p|..]) else s
  }

  function Normalized(value: string): string { StripAll(PREFIX, Trim(value)) }

  predicate Contains(s: string, part: string) {
    exists i :: 0 <= i <= |s| && part <= s[i..]
  }

  predicate Matches(sel: NativeSelector, e: Element) {
    match sel
    case Any => true
    case Property(key, value) =>
      if key == "name" then e.name == value
      else if key == "automationId" then e.automationId == value
      else if key == "className" then e.className == value
      else if key == "controlType" then PREFIX + TypeName(e.controlType) == PREFIX + Normalized(value)
      else if key == "value" then e.value == value
      else false
    case Containing(text) => Contains(e.name, text) || e.automationId == text
  }

  function ConditionFor(sel: NativeSelector): Condition {
    if !sel.Property? then Everything
    else if sel.key == "name" then NameIs(sel.value)
    else if sel.key == "automationId" then AutomationIdIs(sel.value)
    else if sel.key == "className" then ClassNameIs(sel.value)
    else if sel.key == "controlType" then
      match TypeNamed(Lower(Normalized(sel.value)))
      case None => Everything
      case Some(t) => TypeIs(t)
    else Everything
  }

  predicate Satisfies(e: Element, c: Condition) {
    match c
    case Everything => true
    case NameIs(v) => e.name == v
    case AutomationIdIs(v) => e.automationId == v
    case ClassNameIs(v) => e.className == v
    case TypeIs(t) => e.controlType == t
  }

  // ----- The tables invert each other through lower-casing -----

  lemma LowerNames1(t: ControlType)
    requires t.Button? || t.CheckBox? || t.ComboBox? || t.Custom? || t.Document?
    ensures TypeNamed(Lower(TypeName(t))) == Some(t)
  {
    assert Lower("Button") == "button" && Lower("CheckBox") == "checkbox" && Lower("ComboBox") == "combobox";
    assert Lower("Custom") == "custom" && Lower("Document") == "document";
  }

  lemma LowerNames2(t: ControlType)
    requires t.Edit? || t.Group? || t.Hyperlink? || t.Image?
    ensures TypeNamed(Lower(TypeName(t))) == Some(t)
  {
    assert Lower("Edit") == "edit" && Lower("Group") == "group" && Lower("Hyperlink") == "hyperlink";
    assert Lower("Image") == "image";
  }

  lemma LowerNames3(t: ControlType)
    requires t.ListBox? || t.ListItem? || t.Menu? || t.MenuItem?
    ensures TypeNamed(Lower(TypeName(t))) == Some(t)
  {
    assert Lower("List") == "list" && Lower("ListItem") == "listitem" && Lower("Menu") == "menu";
    assert Lower("MenuItem") == "menuitem";
  }

  lemma LowerNames4(t: ControlType)
    requires t.Pane? || t.RadioButton? || t.Tab? || t.TabItem?
    ensures TypeNamed(Lower(TypeName(t))) == Some(t)
  {
    assert Lower("Pane") == "pane" && Lower("RadioButton") == "radiobutton" && Lower("Tab") == "tab";
    assert Lower("TabItem") == "tabitem";
  }

  lemma LowerNames5(t: ControlType)
    requires t.TextLabel? || t.Tree?
    ensures TypeNamed(Lower(TypeName(t))) == Some(t)
  {
    assert Lower("Text") == "text" && Lower("Tree") == "tree";
  }

  lemma LowerNames6()
    ensures TypeNamed(Lower(TypeName(TreeItem))) == Some(TreeItem)
  {
    assert Lower("TreeItem") == "treeitem";
  }

  lemma LowerNames7()
    ensures TypeNamed(Lower(TypeName(Window))) == Some(Window)
  {
    assert Lower("Window") == "window";
  }

  /** A printed control type, lower-cased, names that type and no other; a numeric one names none. */
  lemma TablesInverse(t: ControlType)
    ensures TypeNamed(Lower(TypeName(t))) == if t.Other? then None else Some(t)
  {
    if t.Other? {
      var name := Lower(TypeName(t));
      assert name[0] == LowerChar(TypeName(t)[0]);
    } else if t.Button? || t.CheckBox? || t.ComboBox? || t.Custom? || t.Document? {
      LowerNames1(t);
    } else if t.Edit? || t.Group? || t.Hyperlink? || t.Image? {
      LowerNames2(t);
    } else if t.ListBox? || t.ListItem? || t.Menu? || t.MenuItem? {
      LowerNames3(t);
    } else if t.Pane? || t.RadioButton? || t.Tab? || t.TabItem? {
      LowerNames4(t);
    } else if t.TextLabel? || t.Tree? {
      LowerNames5(t);
    } else {
      LowerNames6();
      LowerNames7();
    }
  }

  /** An element that matches a selector satisfies the condition built for that selector. */
  lemma ConditionNecessary(sel: NativeSelector, e: Element)
    requires Matches(sel, e)
    ensures Satisfies(e, ConditionFor(sel))
  {
    if sel.Property? && sel.key == "controlType" {
      var name, n := TypeName(e.controlType), Normalized(sel.value);
      assert (PREFIX + name)[|PREFIX|..] == name && (PREFIX + n)[|PREFIX|..] == n;
      TablesInverse(e.controlType);
    }
  }

  function Filter<T>(es: seq<T>, keep: T -> bool): (r: seq<T>) {
    if es == [] then [] else (if keep(es[0]) then [es[0]] else []) + Filter(es[1..], keep)
  }

  lemma {:induction false} FilterConcat<T>(es: seq<T>, fs: seq<T>, keep: T -> bool)
    ensures Filter(es + fs, keep) == Filter(es, keep) + Filter(fs, keep)
  {
    if es == [] {
      assert es + fs == fs;
    } else {
      var first := if keep(es[0]) then [es[0]] else [];
      assert (es + fs)[0] == es[0] && (es + fs)[1..] == es[1..] + fs;
      FilterConcat(es[1..], fs, keep);
      assert first + (Filter(es[1..], keep) + Filter(fs, keep)) == first + Filter(es[1..], keep) + Filter(fs, keep);
    }
  }

  lemma {:induction false} FilterTwice<T(!new)>(es: seq<T>, coarse: T -> bool, fine: T -> bool)
    requires forall e :: fine(e) ==> coarse(e)
    ensures Filter(Filter(es, coarse), fine) == Filter(es, fine)
  {
    if es != [] {
      FilterTwice(es[1..], coarse, fine);
      if coarse(es[0]) {
        assert Filter(es, coarse) == [es[0]] + Filter(es[1..], coarse);
        assert ([es[0]] + Filter(es[1..], coarse))[1..] == Filter(es[1..], coarse);
      } else {
        assert Filter(es, coarse) == Filter(es[1..], coarse);
      }
    }
  }

  /** The prefilter loses nothing: filtering by the native condition and then by the match is filtering by the match. */
  lemma PrefilterLosesNothing(sel: NativeSelector, descendants: seq<Element>)
    ensures Filter(Filter(descendants, e => Satisfies(e, ConditionFor(sel))), e => Matches(sel, e)) ==
            Filter(descendants, e => Matches(sel, e))
  {
    forall e: Element | Matches(sel, e)
      ensures Satisfies(e, ConditionFor(sel))
    {
      ConditionNecessary(sel, e);
    }
    FilterTwice(descendants, e => Satisfies(e, ConditionFor(sel)), e => Matches(sel, e));
  }

  lemma FilterNext<T>(es: seq<T>, i: nat, keep: T -> bool)
    requires i < |es|
    ensures Filter(es[..i + 1], keep) == if keep(es[i]) then Filter(es[..i], keep) + [es[i]] else Filter(es[..i], keep)
  {
    assert es[..i + 1] == es[..i] + [es[i]];
    FilterConcat(es[..i], [es[i]], keep);
    assert Filter([es[i]], keep) == if keep(es[i]) then [es[i]] else [];
  }

  method Keep<T>(found: seq<T>, keep: T -> bool) returns (results: seq<T>)
    ensures results == Filter(found, keep)
  {
    results := [];
    for index := 0 to |found|
      invariant results == Filter(found[..index], keep)
    {
      FilterNext(found, index, keep);
      if keep(found[index]) {
        results := results + [found[index]];
      }
    }
    assert found[..|found|] == found;
  }

  /** `native_uia_collect` with the condition built for that selector: exactly the matching descendants, in order. */
  method Collect(descendants: seq<Element>, sel: NativeSelector) returns (results: seq<Element>)
    ensures results == Filter(descendants, e => Matches(sel, e))
  {
    var found := Filter(descendants, e => Satisfies(e, ConditionFor(sel)));
    results := Keep(found, e => Matches(sel, e));
    PrefilterLosesNothing(sel, descendants);
  }

  // ----- Parsing selectors -----

  predicate IsKey(key: string) {
    key == "name" || key == "automationId" || key == "className" || key == "controlType" || key == "value"
  }

  function PrintProperty(key: string, value: string): string { "[" + key + "='" + value + "']" }

  /** A property, if the trimmed text `t` has that form and `isKey` knows its key. */
  function ParseProperty(isKey: string -> bool, t: string): (r: Option<(string, string)>) {
    if |t| < 2 || t[0] != '[' || t[|t| - 1] != ']' then None
    else
      var inner := t[1..|t| - 1];
      match IndexOf(inner, '=')
      case None => None
      case Some(k) =>
        var key, quoted := inner[..k], inner[k + 1..];
        if isKey(key) && |quoted| >= 2 && quoted[0] == '\'' && quoted[|quoted| - 1] == '\'' then
          Some((key, quoted[1..|quoted| - 1]))
        else None
  }

  /** `NativeSelector::parse` */
  function ParseSelector(selector: string): (r: NativeSelector) {
    var t := Trim(selector);
    if t == "" then Any
    else
      match ParseProperty(IsKey, t)
      case None => Containing(t)
      case Some((key, value)) => Property(key, value)
  }

  lemma KeyHasNoEquals(key: string)
    requires IsKey(key)
    ensures '=' !in key
  {
  }

  lemma Unwrap(s: string, open: char, close: char)
    requires |s| >= 2 && s[0] == open && s[|s| - 1] == close
    ensures s == [open] + s[1..|s| - 1] + [close]
  {
  }

  lemma Wrapped(open: char, s: string, close: char)
    ensures var t := [open] + s + [close]; |t| == |s| + 2 && t[0] == open && t[|t| - 1] == close && t[1..|t| - 1] == s
  {
  }

  lemma Rebuild(key: string, value: string)
    ensures "[" + (key + ("=" + ("'" + value + "'"))) + "]" == PrintProperty(key, value)
  {
  }

  lemma SplitAtEquals(key: string, rest: string)
    requires '=' !in key
    ensures var s := key + ("=" + rest); IndexOf(s, '=') == Some(|key|) && s[..|key|] == key && s[|key| + 1..] == rest
  {
    var s := key + ("=" + rest);
    assert s[..|key|] == key && s[|key|] == '=';
    IndexOfIs(s, '=', |key|);
  }

  lemma PrintedParses(isKey: string -> bool, key: string, value: string)
    requires isKey(key) && '=' !in key
    ensures ParseProperty(isKey, PrintProperty(key, value)) == Some((key, value))
  {
    var quoted := "'" + value + "'";
    Rebuild(key, value);
    Wrapped('[', key + ("=" + quoted), ']');
    SplitAtEquals(key, quoted);
    Wrapped('\'', value, '\'');
  }

  lemma ParsedPrints(isKey: string -> bool, t: string)
    requires ParseProperty(isKey, t).Some?
    ensures var (key, value) := ParseProperty(isKey, t).value; isKey(key) && t == PrintProperty(key, value)
  {
    var inner := t[1..|t| - 1];
    var k := IndexOf(inner, '=').value;
    var quoted := inner[k + 1..];
    Unwrap(t, '[', ']');
    Unwrap(quoted, '\'', '\'');
    Rejoin(inner, k);
    Rebuild(inner[..k], quoted[1..|quoted| - 1]);
  }

  lemma Rejoin(s: string, k: nat)
    requires k < |s| && s[k] == '='
    ensures s == s[..k] + ("=" + s[k + 1..])
  {
  }

  /** Printing and parsing a property selector gives it back, whatever its value contains, and only text of that form
      parses to it. */
  lemma PropertySelectors(selector: string, key: string, value: string)
    requires IsKey(key)
    ensures ParseSelector(selector) == Property(key, value) <==> Trim(selector) == PrintProperty(key, value)
  {
    var t := Trim(selector);
    KeyHasNoEquals(key);
    if t == PrintProperty(key, value) {
      PrintedParses(IsKey, key, value);
    }
    if ParseProperty(IsKey, t).Some? {
      ParsedPrints(IsKey, t);
    }
  }

  // ----- What a selector finds -----

  /** The text shown for a property that a selector compares as it is. */
  function Shown(e: Element, key: string): Option<string> {
    match key
    case "name" => Some(e.name)
    case "automationId" => Some(e.automationId)
    case "className" => Some(e.className)
    case "value" => Some(e.value)
    case _ => None
  }

  lemma ShownKey(e: Element, key: string)
    requires Shown(e, key).Some?
    ensures IsKey(key)
  {
  }

  lemma ShownMatches(key: string, value: string, e: Element)
    requires Shown(e, key).Some?
    ensures Matches(Property(key, value), e) <==> Shown(e, key) == Some(value)
  {
  }

  /** A property selector finds the elements whose property is exactly its value. */
  lemma PropertyMatches(selector: string, key: string, value: string, e: Element)
    requires Trim(selector) == PrintProperty(key, value) && Shown(e, key).Some?
    ensures Matches(ParseSelector(selector), e) <==> Shown(e, key) == Some(value)
  {
    ShownKey(e, key);
    PropertySelectors(selector, key, value);
    ShownMatches(key, value, e);
  }

  function Times(p: string, n: nat): string { if n == 0 then "" else p + Times(p, n - 1) }

  lemma {:induction false} StripAllTimes(p: string, n: nat, r: string)
    requires p != "" && !(p <= r)
    ensures StripAll(p, Times(p, n) + r) == r
  {
    var s := Times(p, n) + r;
    if n > 0 {
      StripAllTimes(p, n - 1, r);
      assert s == p + (Times(p, n - 1) + r);
      assert s[|p|..] == Times(p, n - 1) + r;
    } else {
      assert s == r;
    }
  }

  lemma {:induction false} StripAllCount(p: string, s: string) returns (n: nat)
    requires p != ""
    ensures s == Times(p, n) + StripAll(p, s)
    decreases |s|
  {
    if p <= s {
      n := StripAllCount(p, s[|p|..]);
      n := n + 1;
      assert s == p + s[|p|..];
    } else {
      n := 0;
    }
  }

  lemma NameUnprefixed(t: ControlType)
    ensures !("ControlType." <= TypeName(t))
  {
    if t.Other? {
      assert TypeName(t)[0] != 'C';
    }
  }

  ghost predicate NamesType(value: string, t: ControlType) {
    exists n: nat :: Trim(value) == Times("ControlType.", n) + TypeName(t)
  }

  lemma NormalizedExactly(value: string, t: ControlType)
    ensures Normalized(value) == TypeName(t) <==> NamesType(value, t)
  {
    var p := "ControlType.";
    var n := StripAllCount(p, Trim(value));
    NameUnprefixed(t);
    if NamesType(value, t) {
      var k: nat :| Trim(value) == Times(p, k) + TypeName(t);
      StripAllTimes(p, k, TypeName(t));
    }
  }

  lemma PrefixCancels(p: string, s: string, t: string)
    ensures p + s == p + t <==> s == t
  {
    assert (p + s)[|p|..] == s && (p + t)[|p|..] == t;
  }

  lemma TypeCompared(value: string, e: Element)
    ensures Matches(Property("controlType", value), e) <==>
            PREFIX + TypeName(e.controlType) == PREFIX + Normalized(value)
  {
  }

  /** A control-type selector finds the elements of the type its value names, with the prefix any number of times in
      front of the name. */
  lemma TypeMatches(selector: string, value: string, e: Element)
    requires Trim(selector) == PrintProperty("controlType", value)
    ensures Matches(ParseSelector(selector), e) <==> NamesType(value, e.controlType)
  {
    PropertySelectors(selector, "controlType", value);
    TypeCompared(value, e);
    PrefixCancels(PREFIX, TypeName(e.controlType), Normalized(value));
    NormalizedExactly(value, e.controlType);
  }

  ghost predicate IsPart(part: string, s: string) { exists before, after :: s == before + part + after }

  lemma ContainsExactly(s: string, part: string)
    ensures Contains(s, part) <==> IsPart(part, s)
  {
    if Contains(s, part) {
      var i :| 0 <= i <= |s| && part <= s[i..];
      assert s == s[..i] + part + s[i..][|part|..];
    }
    if IsPart(part, s) {
      var before, after :| s == before + part + after;
      assert s[|before|..] == part + after;
    }
  }

  /** Any other text finds the elements that have it in their name or as their automation id, and no text finds all. */
  lemma TextMatches(selector: string, e: Element)
    requires forall key, value :: IsKey(key) ==> Trim(selector) != PrintProperty(key, value)
    ensures var t := Trim(selector);
            Matches(ParseSelector(selector), e) <==> t == "" || IsPart(t, e.name) || e.automationId == t
  {
    var t := Trim(selector);
    if ParseProperty(IsKey, t).Some? {
      ParsedPrints(IsKey, t);
    }
    ContainsExactly(e.name, t);
  }

  // ----- How much the condition says -----

  lemma {:induction false} DecimalDigits(n: int)
    requires n >= 0
    ensures AllDigits(Decimal(n)) && DigitsValue(Decimal(n)) == n
    ensures n > 0 ==> Decimal(-n) == "-" + Decimal(n)
  {
    var s := Decimal(n);
    if n >= 10 {
      DecimalDigits(n / 10);
      assert s[..|s| - 1] == Decimal(n / 10);
    } else {
      assert s[..0] == "";
    }
  }

  /** For these properties the condition asks for what matches and nothing more. */
  lemma ConditionExact(key: string, value: string, e: Element)
    requires key == "name" || key == "automationId" || key == "className"
    ensures Satisfies(e, ConditionFor(Property(key, value))) <==> Matches(Property(key, value), e)
  {
  }

  lemma TypeCondition(value: string)
    ensures ConditionFor(Property("controlType", value)) ==
            match TypeNamed(Lower(Normalized(value))) { case None => Everything case Some(t) => TypeIs(t) }
  {
  }

  /** For a control type it asks for the type the tables know by that name in any case, and otherwise for nothing. */
  lemma TypeConditionExact(value: string, e: Element)
    ensures var named := TypeNamed(Lower(Normalized(value)));
            Satisfies(e, ConditionFor(Property("controlType", value))) <==>
            (named.Some? ==> TypeNamed(Lower(TypeName(e.controlType))) == named)
  {
    TypeCondition(value);
    TablesInverse(e.controlType);
  }
}
