# pappymenu, the data logic of a GTK application launcher

pappymenu pops up a menu of the installed desktop applications at the mouse
pointer and execs the one the user picks. It asks the external tool
`xdg_menu` for an openbox3 pipe menu (XML) and flattens it into a cache. The
cache is a map from category name to (icon, map from program name to
(icon, command)). The menu shows the categories and the programs of each in
sorted order. A leaf's `activate` handler stores its command in the
module-level `command_string`, and after the GTK main loop returns the
command is executed if it is neither `None` nor empty. The command line
chooses between help, version, cache regeneration and the menu.

This project models that logic in Dafny over an abstract parsed tree, with
no XML, JSON or GTK involved:

- `Wrappers` (wrappers.dfy): `Option` and `Result`.
- `Text` (text.dfy): `''.join` and Python's `str.strip()`, with the
  whitespace set of `str.isspace()`.
- `MenuXml` (menu_xml.dfy): the parsed tool output. It is a sequence of
  top-level `menu` elements. Each has optional `label` and `icon` attributes
  and child elements. An `item` child carries `label`, `icon` and the text
  fragments `itertext()` yields. Any other child is skipped by
  `findall('item')`.
- `MenuCache` (cache.dfy): the flattening loop of `regenerate_cache`. It is
  specified by `Flatten`/`Programs`, a fold of dictionary assignments in
  document order. The lemmas prove the key sets, last-write-wins, the ""
  default icon and the stripped command.
- `StringOrder` (order.dfy): Python's `<` on `str` and `sorted()` of a
  dictionary's keys.
- `Presenter` (presenter.dfy): `make_menu` as two nested loops that append
  to sequences, proved to present the cache in sorted order.
- `Session` (session.dfy): `command_string` with its handlers (a class), the
  replay of signals and the exec guard.
- `Cli` (cli.dfy): the `-h` / `-v` / `-r` precedence.

A `label` attribute that is missing makes `attrib['label']` raise `KeyError`.
The model returns `Failure(MissingLabel)` for that case instead of requiring
labels. The rebinding of `menu` in the `for` header at pappymenu.py:62 is
harmless, because `menu.xpath(...)` is evaluated once before the loop. The
model keeps the document and the loop variable apart.

In three places the code is easy to misread; the model follows the code:
- A missing icon is stored as `""`, not as an absent value.
- `sorted(menu_data.items())` sorts (name, value) pairs. Names are distinct
  keys, so the order is that of the names under Python's code-point order
  (`StringOrder.Below`), which is not locale collation.
- The flags are looked up anywhere in `sys.argv`, the script name
  (`argv[0]`) included.

## Model

| member | source | states |
|---|---|---|
| `Text.Concat` | pappymenu.py:69 | `''.join(parts)`: the fragments one after the other (helper definition; its properties are used through the lemmas below). |
| `Text.Strip` | pappymenu.py:69 | `str.strip()` as `rstrip` after `lstrip`; characterised by `Text.StripSpec` and `Text.StripUnique`. |
| `StringOrder.Below` | pappymenu.py:124 | Python's `<` on `str`: code point by code point, a proper prefix first; its order laws are the `Below*` lemmas. |
| `StringOrder.SortedKeys` | pappymenu.py:124 | `sorted()` of a dictionary's keys: the least key, then the rest sorted; characterised by `StringOrder.SortedKeysSpec`. |
| `MenuCache.RegenerateCache` | pappymenu.py:60-71 | The nested loop fails with `MissingLabel` exactly when some category, or some `item` child of one, has no `label`. Otherwise it returns the `result` dictionary `Flatten(doc)`. |
| `MenuCache.FlattenKeys` | pappymenu.py:62-71 | The cache's keys are exactly the labels of the top-level categories. |
| `MenuCache.FlattenLastWins` | pappymenu.py:62-71 | Under each label is the section of the LAST category with that label. Its icon is the `icon` attribute, or "" when there is none. Its program keys are that category's `item` labels. |
| `MenuCache.ProgramsKeys` | pappymenu.py:65-70 | A category's program map is keyed by exactly the labels of its direct `item` children. |
| `MenuCache.ProgramsLastWins` | pappymenu.py:66-70 | Under each program label is the entry of the LAST `item` with that label. Its icon is the `icon` attribute, or "" when absent. Its command is the item's text fragments joined and stripped. |
| `MenuCache.BrowserExample` | pappymenu.py:61-71 | The category "Internet" with the item "Browser", text " firefox %U " and no icons flattens to {"Internet": ("", {"Browser": ("", "firefox %U")})}. |
| `Text.StripLeadingSpec` | pappymenu.py:69 | `lstrip` removes exactly a whitespace prefix, up to the first non-space. |
| `Text.StripTrailingSpec` | pappymenu.py:69 | `rstrip` removes exactly a whitespace suffix, back to the last non-space. |
| `Text.StripSpec` | pappymenu.py:69 | `strip()` yields `s` with a whitespace prefix and suffix cut off, and the result neither starts nor ends with whitespace. |
| `Text.StripUnique` | pappymenu.py:69 | Any string that is `s` minus a whitespace prefix and suffix, with no outer whitespace, equals `Strip(s)`. So the characterisation pins the command down. |
| `StringOrder.SortedKeysSpec` | pappymenu.py:124 | `sorted()` of a dictionary's keys lists every key exactly once, in strictly ascending string order. |
| `StringOrder.AscendingUnique` | pappymenu.py:129 | Two strictly ascending sequences with the same elements are equal. So a sorted listing is unique. |
| `StringOrder.BelowTotal` | pappymenu.py:124 | Python's string `<` orders any two different strings. |
| `StringOrder.BelowTransitive` | pappymenu.py:124 | Python's string `<` is transitive. |
| `Presenter.MakeMenu` | pappymenu.py:120-139 | Categories are listed in strictly ascending order and are exactly the cache's keys. The same holds for each category's programs. Every leaf carries the icon and command stored for its (category, program) pair. |
| `Presenter.ListedSection` | pappymenu.py:129-136 | A submenu whose leaves follow the sorted program names, each with the stored icon and command, presents that category. |
| `Presenter.PresentationUnique` | pappymenu.py:124-137 | The presented menu is determined by the cache. Two menus that both present it are equal. |
| `Presenter.SectionPresentationUnique` | pappymenu.py:129-134 | A category's submenu is determined by its programs. |
| `Presenter.BrowserMenu` | pappymenu.py:124-134 | The example cache is presented as exactly one submenu "Internet" with one leaf "Browser" selecting "firefox %U". |
| `Session.Selection.constructor` | pappymenu.py:17 | `command_string` starts as `None`. |
| `Session.Selection.SetCommand` | pappymenu.py:142-146 | Activating a leaf sets `command_string` to exactly that leaf's command and quits the main loop. |
| `Session.Selection.MainQuit` | pappymenu.py:173-174 | Cancel and deactivate quit the main loop and leave `command_string` unchanged. |
| `Session.Selection.Handle` | pappymenu.py:133 | Dispatching a signal updates `command_string` as its handler does. |
| `Session.Selection.ExecTarget` | pappymenu.py:181-184 | A command is handed to the exec exactly when `command_string` is non-`None` and non-empty, and it is that string. |
| `Session.RunSession` | pappymenu.py:172-184 | After the handlers ran, a command is executed exactly when the final `command_string` is truthy, and it is that final value: non-empty, and the command of an activated leaf. The main loop was told to quit exactly when some signal was handled. |
| `Session.ReplayNone` | pappymenu.py:17 | `command_string` is still `None` exactly when no leaf was activated. |
| `Session.ReplayLastActivation` | pappymenu.py:142-145 | Otherwise it holds the command of the last activated leaf. |
| `Session.NoExecWithoutSelection` | pappymenu.py:181-184 | A truthy `command_string` is non-empty and is the command of some activated leaf. |
| `Session.CancelExecutesNothing` | pappymenu.py:173-174 | Signals that are only cancel or deactivate lead to no exec. |
| `Cli.Dispatch` | pappymenu.py:149-171 | Help is chosen iff `-h` is in argv. Version iff `-v` is and `-h` is not. Regenerate iff `-r` is and neither of the others is. The menu is shown iff none of the three is present. |
| `Cli.DispatchIgnoresOrder` | pappymenu.py:149-167 | Only which flags occur matters, not their order or the other arguments. |
| `Cli.HelpDominates` | pappymenu.py:149 | `-h` anywhere wins whatever else is on the command line. |

## Left out

- Running `xdg_menu` and its missing-tool path (message, `exit(1)`). The model starts from the tool's parsed output.
- XML parsing, `xpath` and `itertext()`. They are replaced by the `MenuXml` tree, in which an item's text is already the sequence of fragments `itertext()` yields. Malformed XML (a parse error) is not modelled.
- Writing and reading the JSON cache, `get_menu_data`'s `os.path.isfile` check, and `cache_path` with the XDG base-directory lookup. These are file I/O and environment. `MakeMenu` takes the cache as a parameter. A JSON round trip turns the tuples into lists, which the model does not represent.
- `icon_item`: the widgets, pixbuf loading and scaling, and the transparent placeholder icon. A leaf and a submenu carry the icon path as a string.
- The GTK popup and main loop. The signals delivered before `Gtk.main()` returns are a parameter of `RunSession`. Every handler calls `Gtk.main_quit`, and the model applies all of those signals, because GTK emits them within one dispatch.
- `shlex.split` and `os.execvp`: the exec is represented by the command string it would receive. An unexecutable command, the exec failure, is not modelled.
- The help and version texts; only which of them is printed is modelled.
