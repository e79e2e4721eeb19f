/**
 * The cache structure and how `regenerate_cache` builds it from the parsed
 * menu: a map from category label to (icon, map from program label to
 * (icon, command)).
 */
module MenuCache {
  import opened Wrappers
  import opened Text
  import opened MenuXml

  /** The `(app_icon, app_command)` pair stored for one program. */
  datatype Program = Program(icon: string, command: string)

  /** The `(menu_icon, programs)` pair stored for one category. */
  datatype Section = Section(icon: string, programs: map<string, Program>)

  type Cache = map<string, Section>

  /** `attrib['label']` on an element that has no `label` attribute raises `KeyError`. */
  datatype Error = MissingLabel

  /** `element.get('icon', '')`. */
  function IconOrEmpty(icon: Option<string>): string {
    match icon
    case Some(path) => path
    case None => ""
  }

  /** Every `item` child has a label, so the inner loop does not raise. */
  predicate ItemsLabelled(children: seq<Element>) {
    forall j :: 0 <= j < |children| && children[j].Item? ==> children[j].labelAttr.Some?
  }

  predicate MenuLabelled(m: Menu) {
    m.labelAttr.Some? && ItemsLabelled(m.children)
  }

  /** Nothing in the document makes `regenerate_cache` raise `KeyError`. */
  predicate AllLabelled(doc: seq<Menu>) {
    forall i :: 0 <= i < |doc| ==> MenuLabelled(doc[i])
  }

  /** The entry stored for one `item` element. */
  function ProgramEntry(e: Element): Program
    requires e.Item?
  {
    Program(IconOrEmpty(e.iconAttr), Strip(Concat(e.text)))
  }

  /** The labels of the `item` children. */
  function ItemLabels(children: seq<Element>): set<string>
    requires ItemsLabelled(children)
  {
    set j | 0 <= j < |children| && children[j].Item? :: children[j].labelAttr.value
  }

  /** The labels of the categories. */
  function MenuLabels(doc: seq<Menu>): set<string>
    requires AllLabelled(doc)
  {
    set i | 0 <= i < |doc| :: doc[i].labelAttr.value
  }

  /**
   * The `programs` dictionary of one category: each `item` child, in order,
   * assigned under its label, so a later item replaces an earlier one.
   */
  function Programs(children: seq<Element>): map<string, Program>
    requires ItemsLabelled(children)
  {
    if children == [] then map[]
    else
      var init, e := children[..|children| - 1], children[|children| - 1];
      assert ItemsLabelled(init);
      if e.Item? then Programs(init)[e.labelAttr.value := ProgramEntry(e)] else Programs(init)
  }

  lemma ItemLabelsSnoc(children: seq<Element>)
    requires ItemsLabelled(children) && children != []
    ensures ItemsLabelled(children[..|children| - 1])
    ensures var e := children[|children| - 1];
            ItemLabels(children)
            == ItemLabels(children[..|children| - 1]) + (if e.Item? then {e.labelAttr.value} else {})
  {
    var init := children[..|children| - 1];
    assert forall j :: 0 <= j < |init| ==> init[j] == children[j];
  }

  /** The value stored for one category. */
  function SectionOf(m: Menu): Section
    requires MenuLabelled(m)
  {
    Section(IconOrEmpty(m.iconAttr), Programs(m.children))
  }

  /**
   * The `result` dictionary: each category, in document order, assigned
   * under its label, so a later category replaces an earlier one.
   */
  function Flatten(doc: seq<Menu>): Cache
    requires AllLabelled(doc)
  {
    if doc == [] then map[]
    else
      var init, m := doc[..|doc| - 1], doc[|doc| - 1];
      assert AllLabelled(init);
      Flatten(init)[m.labelAttr.value := SectionOf(m)]
  }

  lemma MenuLabelsSnoc(doc: seq<Menu>)
    requires AllLabelled(doc) && doc != []
    ensures AllLabelled(doc[..|doc| - 1])
    ensures MenuLabels(doc) == MenuLabels(doc[..|doc| - 1]) + {doc[|doc| - 1].labelAttr.value}
  {
    var init := doc[..|doc| - 1];
    assert forall i :: 0 <= i < |init| ==> init[i] == doc[i];
  }

  /** The programs of a category are keyed by exactly the labels of its `item` children. */
  lemma {:induction false} ProgramsKeys(children: seq<Element>)
    requires ItemsLabelled(children)
    ensures Programs(children).Keys == ItemLabels(children)
    decreases |children|
  {
    if children != [] {
      ItemLabelsSnoc(children);
      ProgramsKeys(children[..|children| - 1]);
    }
  }

  /** The cache is keyed by exactly the labels of the categories. */
  lemma {:induction false} FlattenKeys(doc: seq<Menu>)
    requires AllLabelled(doc)
    ensures Flatten(doc).Keys == MenuLabels(doc)
    decreases |doc|
  {
    if doc != [] {
      MenuLabelsSnoc(doc);
      FlattenKeys(doc[..|doc| - 1]);
    }
  }

  /** One more pass of the inner loop: `Programs` of a longer prefix. */
  lemma ProgramsStep(children: seq<Element>, j: nat)
    requires j < |children| && ItemsLabelled(children[..j])
    requires children[j].Item? ==> children[j].labelAttr.Some?
    ensures ItemsLabelled(children[..j + 1])
    ensures Programs(children[..j + 1])
            == if children[j].Item?
               then Programs(children[..j])[children[j].labelAttr.value := ProgramEntry(children[j])]
               else Programs(children[..j])
  {
    var c := children[..j + 1];
    assert c[..|c| - 1] == children[..j] && c[|c| - 1] == children[j];
  }

  /** One more pass of the outer loop: `Flatten` of a longer prefix. */
  lemma FlattenStep(doc: seq<Menu>, i: nat)
    requires i < |doc| && AllLabelled(doc[..i]) && MenuLabelled(doc[i])
    ensures AllLabelled(doc[..i + 1])
    ensures Flatten(doc[..i + 1]) == Flatten(doc[..i])[doc[i].labelAttr.value := SectionOf(doc[i])]
  {
    var d := doc[..i + 1];
    assert d[..|d| - 1] == doc[..i] && d[|d| - 1] == doc[i];
  }

  /** No `item` child after position `j` has the same label as the one at `j`. */
  predicate LastItemAt(children: seq<Element>, j: nat) {
    && j < |children| && children[j].Item?
    && forall k :: j < k < |children| && children[k].Item? ==> children[k].labelAttr != children[j].labelAttr
  }

  /** No category after position `i` has the same label as the one at `i`. */
  predicate LastMenuAt(doc: seq<Menu>, i: nat) {
    i < |doc| && forall k :: i < k < |doc| ==> doc[k].labelAttr != doc[i].labelAttr
  }

  /**
   * Last write wins among programs: the entry under a label is the one of the
   * last `item` with that label, with its icon (or "" when it has none) and
   * its stripped text as command.
   */
  lemma {:induction false} ProgramsLastWins(children: seq<Element>, j: nat)
    requires ItemsLabelled(children) && LastItemAt(children, j)
    ensures children[j].labelAttr.value in Programs(children)
    ensures Programs(children)[children[j].labelAttr.value] == ProgramEntry(children[j])
    ensures children[j].iconAttr.None? ==> Programs(children)[children[j].labelAttr.value].icon == ""
    ensures children[j].iconAttr.Some? ==>
              Programs(children)[children[j].labelAttr.value].icon == children[j].iconAttr.value
    ensures Programs(children)[children[j].labelAttr.value].command == Strip(Concat(children[j].text))
    decreases |children|
  {
    var init := children[..|children| - 1];
    assert ItemsLabelled(init);
    if j < |children| - 1 {
      assert LastItemAt(init, j);
      ProgramsLastWins(init, j);
    }
  }

  /**
   * Last write wins among categories: the value under a label is the one
   * built from the last category with that label, with its icon (or "" when
   * it has none).
   */
  lemma {:induction false} FlattenLastWins(doc: seq<Menu>, i: nat)
    requires AllLabelled(doc) && LastMenuAt(doc, i)
    ensures doc[i].labelAttr.value in Flatten(doc)
    ensures Flatten(doc)[doc[i].labelAttr.value] == SectionOf(doc[i])
    ensures doc[i].iconAttr.None? ==> Flatten(doc)[doc[i].labelAttr.value].icon == ""
    ensures doc[i].iconAttr.Some? ==> Flatten(doc)[doc[i].labelAttr.value].icon == doc[i].iconAttr.value
    ensures Flatten(doc)[doc[i].labelAttr.value].programs.Keys == ItemLabels(doc[i].children)
    decreases |doc|
  {
    ProgramsKeys(doc[i].children);
    var init := doc[..|doc| - 1];
    assert AllLabelled(init);
    if i < |doc| - 1 {
      assert LastMenuAt(init, i);
      FlattenLastWins(init, i);
    }
  }

  /**
   * `regenerate_cache` without the subprocess call before it and the JSON
   * dump after it: the nested loop that fills `programs` and `result`.
   */
  method RegenerateCache(doc: seq<Menu>) returns (r: Result<Cache, Error>)
    ensures r.Failure? <==> !AllLabelled(doc)
    ensures r.Success? ==> r.value == Flatten(doc)
  {
    var result: Cache := map[];
    var i := 0;
    while i < |doc|
      invariant 0 <= i <= |doc|
      invariant AllLabelled(doc[..i])
      invariant result == Flatten(doc[..i])
    {
      var menu := doc[i];
      if menu.labelAttr.None? {
        assert !MenuLabelled(doc[i]);
        return Failure(MissingLabel);
      }
      var menuName := menu.labelAttr.value;
      var menuIcon := IconOrEmpty(menu.iconAttr);
      var programs: map<string, Program> := map[];
      var j := 0;
      while j < |menu.children|
        invariant 0 <= j <= |menu.children|
        invariant ItemsLabelled(menu.children[..j])
        invariant programs == Programs(menu.children[..j])
      {
        var app := menu.children[j];
        if app.Item? {
          if app.labelAttr.None? {
            assert !ItemsLabelled(menu.children);
            assert !MenuLabelled(doc[i]);
            return Failure(MissingLabel);
          }
          var appName := app.labelAttr.value;
          var appIcon := IconOrEmpty(app.iconAttr);
          var appCommand := Strip(Concat(app.text));
          programs := programs[appName := Program(appIcon, appCommand)];
        }
        ProgramsStep(menu.children, j);
        j := j + 1;
      }
      assert menu.children[..j] == menu.children;
      result := result[menuName := Section(menuIcon, programs)];
      FlattenStep(doc, i);
      i := i + 1;
    }
    assert doc[..i] == doc;
    return Success(result);
  }

  /**
   * A category "Internet" holding an item "Browser" whose text is
   * " firefox %U " and neither with an icon becomes
   * {"Internet": ("", {"Browser": ("", "firefox %U")})}.
   */
  lemma BrowserExample()
    ensures var doc := [Menu(Some("Internet"), None, [Item(Some("Browser"), None, [" firefox %U "])])];
            AllLabelled(doc)
            && Flatten(doc) == map["Internet" := Section("", map["Browser" := Program("", "firefox %U")])]
  {
    var s := " firefox %U ";
    var parts: seq<string> := [s];
    assert parts[..0] == [];
    assert Concat(parts) == s;
    assert StrippedAt("firefox %U", s, 1) by {
      assert "firefox %U" == s[1..11];
    }
    StripUnique(s, "firefox %U");
    var children := [Item(Some("Browser"), None, [s])];
    assert children[..0] == [];
    var doc := [Menu(Some("Internet"), None, children)];
    assert doc[..0] == [];
  }
}
