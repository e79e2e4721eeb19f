/**
 * `make_menu` without the widgets: the two-level menu built from the cache,
 * categories in ascending order of their names, each holding its programs in
 * ascending order of their names. Each GTK `append` becomes an append to a
 * sequence, and a leaf carries the command its `activate` handler passes on.
 */
module Presenter {
  import opened StringOrder
  import opened MenuCache

  /** A program's menu item: its name, its icon and the command it selects. */
  datatype Leaf = Leaf(name: string, icon: string, command: string)

  /** A category's menu item together with its submenu. */
  datatype Submenu = Submenu(name: string, icon: string, items: seq<Leaf>)

  function LeafNames(items: seq<Leaf>): seq<string> {
    seq(|items|, j requires 0 <= j < |items| => items[j].name)
  }

  function SubmenuNames(root: seq<Submenu>): seq<string> {
    seq(|root|, i requires 0 <= i < |root| => root[i].name)
  }

  /** `names` lists the keys of `m`, each once, in ascending order. */
  ghost predicate ListsInOrder<V>(names: seq<string>, m: map<string, V>) {
    StrictlyAscending(names) && forall k :: k in names <==> k in m
  }

  /** The submenu shows the category's icon and exactly its programs, in order. */
  ghost predicate PresentsSection(section: Section, sub: Submenu) {
    && sub.icon == section.icon
    && ListsInOrder(LeafNames(sub.items), section.programs)
    && forall j :: 0 <= j < |sub.items| ==>
         && sub.items[j].name in section.programs
         && sub.items[j].icon == section.programs[sub.items[j].name].icon
         && sub.items[j].command == section.programs[sub.items[j].name].command
  }

  /** The menu shows exactly the cache's categories, in order, each with its programs. */
  ghost predicate Presents(cache: Cache, root: seq<Submenu>) {
    && ListsInOrder(SubmenuNames(root), cache)
    && forall i :: 0 <= i < |root| ==> root[i].name in cache && PresentsSection(cache[root[i].name], root[i])
  }

  /** The loops of `make_menu` over `sorted(menu_data.items())` and `sorted(programs.items())`. */
  method MakeMenu(cache: Cache) returns (root: seq<Submenu>)
    ensures Presents(cache, root)
  {
    root := [];
    var categories := SortedKeys(cache.Keys);
    assert forall k :: 0 <= k < |categories| ==> categories[k] in cache by {
      SortedKeysSpec(cache.Keys);
    }
    var i := 0;
    while i < |categories|
      invariant 0 <= i <= |categories|
      invariant |root| == i
      invariant forall k :: 0 <= k < i ==>
                  root[k].name == categories[k] && PresentsSection(cache[categories[k]], root[k])
    {
      var category := categories[i];
      var section := cache[category];
      var submenu: seq<Leaf> := [];
      var programs := SortedKeys(section.programs.Keys);
      assert forall k :: 0 <= k < |programs| ==> programs[k] in section.programs by {
        SortedKeysSpec(section.programs.Keys);
      }
      var j := 0;
      while j < |programs|
        invariant 0 <= j <= |programs|
        invariant |submenu| == j
        invariant forall k :: 0 <= k < j ==>
                    submenu[k] == Leaf(programs[k], section.programs[programs[k]].icon,
                                       section.programs[programs[k]].command)
      {
        var program := programs[j];
        var content := section.programs[program];
        submenu := submenu + [Leaf(program, content.icon, content.command)];
        j := j + 1;
      }
      assert PresentsSection(section, Submenu(category, section.icon, submenu)) by {
        SortedKeysSpec(section.programs.Keys);
        ListedSection(section, category, submenu, programs);
      }
      root := root + [Submenu(category, section.icon, submenu)];
      i := i + 1;
    }
    assert Presents(cache, root) by {
      SortedKeysSpec(cache.Keys);
      assert SubmenuNames(root) == categories;
    }
  }

  /** The submenu the inner loop builds from a sorted listing of the programs presents the category. */
  lemma ListedSection(section: Section, name: string, items: seq<Leaf>, programs: seq<string>)
    requires ListsInOrder(programs, section.programs)
    requires |items| == |programs|
    requires forall k :: 0 <= k < |items| ==>
               items[k] == Leaf(programs[k], section.programs[programs[k]].icon,
                                section.programs[programs[k]].command)
    ensures PresentsSection(section, Submenu(name, section.icon, items))
  {
    assert LeafNames(items) == programs;
  }

  /** Two menus that both present the same cache are the same menu. */
  lemma PresentationUnique(cache: Cache, r1: seq<Submenu>, r2: seq<Submenu>)
    requires Presents(cache, r1) && Presents(cache, r2)
    ensures r1 == r2
  {
    AscendingUnique(SubmenuNames(r1), SubmenuNames(r2));
    assert |r1| == |SubmenuNames(r1)| == |SubmenuNames(r2)| == |r2|;
    forall i | 0 <= i < |r1|
      ensures r1[i] == r2[i]
    {
      assert r1[i].name == SubmenuNames(r1)[i] == SubmenuNames(r2)[i] == r2[i].name;
      SectionPresentationUnique(cache[r1[i].name], r1[i], r2[i]);
    }
  }

  lemma SectionPresentationUnique(section: Section, s1: Submenu, s2: Submenu)
    requires s1.name == s2.name
    requires PresentsSection(section, s1) && PresentsSection(section, s2)
    ensures s1 == s2
  {
    AscendingUnique(LeafNames(s1.items), LeafNames(s2.items));
    assert |s1.items| == |LeafNames(s1.items)| == |LeafNames(s2.items)| == |s2.items|;
    forall j | 0 <= j < |s1.items|
      ensures s1.items[j] == s2.items[j]
    {
      assert s1.items[j].name == LeafNames(s1.items)[j] == LeafNames(s2.items)[j] == s2.items[j].name;
    }
  }

  /**
   * The cache {"Internet": ("", {"Browser": ("", "firefox %U")})} is shown
   * as one submenu "Internet" holding one leaf "Browser" that selects
   * "firefox %U", and as nothing else.
   */
  lemma BrowserMenu(root: seq<Submenu>)
    requires Presents(map["Internet" := Section("", map["Browser" := Program("", "firefox %U")])], root)
    ensures root == [Submenu("Internet", "", [Leaf("Browser", "", "firefox %U")])]
  {
    var cache := map["Internet" := Section("", map["Browser" := Program("", "firefox %U")])];
    var expected := [Submenu("Internet", "", [Leaf("Browser", "", "firefox %U")])];
    assert SubmenuNames(expected) == ["Internet"];
    assert LeafNames(expected[0].items) == ["Browser"];
    assert Presents(cache, expected);
    PresentationUnique(cache, root, expected);
  }
}
