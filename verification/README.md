# i3 workspace segments and the zsh escaping table, in Dafny

This project models two small pieces of powerline:

- **The i3 segments** (`powerline/segments/i3wm.py`), in module `I3wm`:
  - `calcgrp` turns a workspace's `focused`, `urgent` and `visible` flags into its ordered list of highlight groups.
  - `workspaces` keeps the workspaces that pass the `only_show` flag filter and the output filter. It strips `strip` characters from the front of each name and tags each segment with `calcgrp`.
  - `mode` looks the current binding mode up in a names map. If the mode is not a key, it returns the mode itself.
  - The window manager's workspace query is taken as an input sequence `ws: seq<Workspace>`. With that, every segment is a pure function of its arguments.
- **The zsh prompt renderer** (`powerline/renderers/shell/zsh.py`), in module `ZshRenderer`:
  - The zsh highlight markers are `%{` and `%}`.
  - The zsh character-translation table is the shell renderer's table with `%` mapped to `%%`.
  - `Translate` does plain per-character substitution with a table. It is used only to state what the zsh table does to a text.

Python's `None` is `Wrappers.Option`. Python truthiness is modelled explicitly:
- `IsSet` treats both `None` and `""` as an unset output.
- `ShownByFlags` treats both an absent and an empty `only_show` as "no flag filter".

The highlight groups follow the code's order: `w_focused`, then `w_urgent`, then `w_visible`, then `workspace` (`calcgrp`, lines 12-18).

## Model

| member | source | states |
|---|---|---|
| I3wm.CalcGroups | powerline/segments/i3wm.py:10-19 | The list ends with `workspace`, which occurs nowhere else. It contains `w_focused` / `w_urgent` / `w_visible` exactly when the matching flag is true. Its length is one plus the number of true flags. The groups appear strictly in the order focused, urgent, visible, workspace. |
| I3wm.CalcGroupsRoundTrip | powerline/segments/i3wm.py:10-19 | The three flags can be read back from the group list. Two workspaces get the same groups exactly when their three flags agree. |
| I3wm.Kept | powerline/segments/i3wm.py:56-58 | The filtered list is no longer than the input. A workspace is in it exactly when it is in the input and passes both the `only_show` test and the output test. |
| I3wm.KeptIsOrderedSubsequence | powerline/segments/i3wm.py:56-58 | The filtered list is an order-preserving subsequence of the input: it is picked at the strictly increasing positions `KeptPositions`. A position is picked exactly when its workspace passes both filters. |
| I3wm.StripName | powerline/segments/i3wm.py:54 | Removing the first `min(len(name), strip)` characters leaves `max(0, len(name) - strip)` characters. The result is a suffix of the name: the removed prefix followed by the result gives the name back. |
| I3wm.IsSet | powerline/segments/i3wm.py:51 | Python truthiness of an optional string: an output is set exactly when it is neither `None` nor `""`. |
| I3wm.EffectiveOutput | powerline/segments/i3wm.py:51 | A set `output` argument overrides the context's hint. An unset argument (`None` or `""`) falls back to the hint. The effective output is set exactly when the argument or the hint is set. |
| I3wm.FlagTest | powerline/segments/i3wm.py:57 | With `only_show` `None` or `[]`, every workspace passes. With a non-empty `only_show`, a workspace passes exactly when one of the named flags holds for it. |
| I3wm.OutputTest | powerline/segments/i3wm.py:58 | With an unset effective output, every workspace passes. With a set one, a workspace passes exactly when its `output` equals it. |
| I3wm.ShownTest | powerline/segments/i3wm.py:57-58 | With neither filter set, every workspace is kept. A kept workspace lies on the effective output whenever that output is set. |
| I3wm.SegmentOfWorkspace | powerline/segments/i3wm.py:53-55 | A workspace's segment has `highlight_groups` that record exactly its three flags and end with `workspace`. Its `contents` is the name with `min(len(name), strip)` leading characters removed, a suffix of the name. |
| I3wm.Workspaces | powerline/segments/i3wm.py:51-59 | There are at most as many segments as workspaces. Every segment is the stripped, `calcgrp`-tagged segment of some input workspace that passes both filters. Every such workspace yields a segment in the result. |
| I3wm.WorkspacesIsOrderedSelection | powerline/segments/i3wm.py:53-59 | Segment `k` comes from the workspace at position `idx[k]` of the input, where `idx` is the list of kept positions and strictly increases. Its `highlight_groups` are `calcgrp` of that workspace and its contents are that workspace's stripped name. A position is chosen exactly when its workspace passes the flag filter and the effective-output filter. |
| I3wm.FlagFilterSound | powerline/segments/i3wm.py:57 | When `only_show` is non-empty, every segment carries the highlight group of at least one of the named flags. So every shown workspace has one of those flags set. |
| I3wm.FlagFilterOff | powerline/segments/i3wm.py:57 | When `only_show` is `None` or empty, every workspace on the effective output yields a segment. No workspace is dropped on flag grounds. |
| I3wm.OutputFilterSound | powerline/segments/i3wm.py:51-58 | When the `output` argument is set, every segment comes from a workspace on that output. Otherwise, when the context's output hint is set, every segment comes from a workspace on the hinted output. |
| I3wm.OutputFilterOff | powerline/segments/i3wm.py:51-58 | When neither the argument nor the hint is set, every workspace that passes the flag filter yields a segment. No workspace is dropped on output grounds. |
| I3wm.KeptAllShown | powerline/segments/i3wm.py:56-58 | When every workspace passes both filters, filtering returns the input list unchanged. |
| I3wm.UnfilteredIsMap | powerline/segments/i3wm.py:53-59 | With no flag filter and no output, there is one segment per workspace, in the same order, and segment `k` is built from workspace `k`. |
| I3wm.Mode | powerline/segments/i3wm.py:73-77 | A mode that is a key of the names map returns its mapped value. A mode that is not a key is returned verbatim. The result is therefore either the current mode itself or a value of the names map. An omitted segment (`None`) happens only when the mode is a key mapped to `None`. |
| I3wm.DefaultModeHidden | powerline/segments/i3wm.py:63-77 | With the default names map, the `default` mode yields `None` (the segment is left out), and every other mode is shown verbatim. |
| ZshRenderer.ZshTranslations | powerline/renderers/shell/zsh.py:12-13 | The zsh table's keys are the shell table's keys plus `%`. `%` maps to `%%`. Every other shell key keeps its shell value. |
| ZshRenderer.ZshPromptRenderer | powerline/renderers/shell/zsh.py:9-13 | The zsh renderer's highlight markers are exactly `%{` and `%}`. Its translation table is the shell table with `%` added and mapped to `%%`, and the other entries are unchanged. |
| ZshRenderer.ZshLeavesPlainText | powerline/renderers/shell/zsh.py:12-13 | Text containing neither `%` nor any key of the shell table comes out of the zsh table unchanged. |
| ZshRenderer.ZshPercentRoundTrip | powerline/renderers/shell/zsh.py:13 | For text whose only table characters are `%`, translating with the zsh table and then collapsing each `%%` to `%` gives the text back. |
| ZshRenderer.ZshLeavesNoLonePercent | powerline/renderers/shell/zsh.py:13 | If no shell-table replacement for a key other than `%` contains `%`, then every `%` in the zsh-translated text belongs to an escaped `%%` pair. The shell table's own `%` entry is unconstrained, because the zsh table overrides it. |

## Left out

- The module-global connection `conn`, the `i3ipc` / `i3` import fallback and `i3ipc.Connection()` (i3wm.py lines 7, 42-49) are process-wide I/O state. The result of `conn.get_workspaces()` is the input `ws` instead.
- The `requires_segment_info` decorator, the `pl` argument and the theme engine that calls the segments are outside this model.
- `only_show` entries are limited to the three flags (`Flag`). In Python, any other string is used as a dict key of the workspace record: a missing key raises `KeyError`, and `name` or `output` would test that field's truthiness. That is not modelled.
- `strip` is a `nat`. Python slices differently for a negative `strip`, and that is not modelled.
- `SegmentInfo.mode` is always present. A context without a `mode` key raises `KeyError` in Python, and that is not modelled. The values of the `names` map are `Option<string>`. Python allows any value there.
- The base `ShellRenderer` is not part of this model. Its translation table is an abstract input `map<char, string>`. Its other attributes are not modelled.
- The table's keys are characters. Python keys the table by code point (`ord('%')`), which is the same information.
- Python's `str.translate` and actual prompt emission are not modelled. `Translate` is a plain per-character substitution used only to state properties of the table.
- ZshTranslations: the copy at zsh.py line 12 leaves the shell renderer's own table unchanged. Here that holds by construction, because maps are immutable values, so no contract states it.
