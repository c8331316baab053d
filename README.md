# Volatility-model results tables: the LaTeX formatting layer

This project models the layer that turns fitted volatility models (GARCH,
APARCH, FIGARCH) into LaTeX results tables. It covers:

- the significance stars for a p-value (`get_stars`);
- the cross-reference label derived from the output file name
  (`_get_deterministic_label`);
- the numbered `tablenotes` block under a table (`_get_significance_note`);
- the two parameter-label maps, `PARAM_MAP` and the local map of
  `_apply_parameter_mapping`, and the canonical row order `DESIRED_ORDER`;
- the coefficient / standard-error extractor (`format_coef_std`);
- the string rewriting of `export_to_latex`. It keeps the float,
  centres it and wraps its contents in a `threeparttable`, turns the tabular
  into a full-width `tabularx`, and injects the notes;
- the table-assembly step of the model script (`scripts/models_dataset1.py`).
  It takes the union of the per-model rows, keeps those in `DESIRED_ORDER` in
  that order, and relabels them.

Files, one Dafny module each:

| file | module | what |
|---|---|---|
| `text.dfy` | `Text` | Python `str.replace` as `ReplaceAll`, occurrence predicates, `"\n".join`, decimal rendering of a natural number |
| `significance.dfy` | `Significance` | `get_stars` |
| `crossref.dfy` | `CrossRef` | the label pipeline: lower-case, `_`/space to `-`, keep `[a-z0-9-]`, collapse `-+`, strip `-`, prefix `tab:` |
| `frames.dfy` | `Frames` | cells (filled or missing), a table value, and a `DataFrame` class whose row index is changed in place |
| `param_labels.dfy` | `ParamLabels` | `PARAM_MAP`, the local map, `DESIRED_ORDER`, `_apply_parameter_mapping` |
| `notes.dfy` | `Notes` | `_get_significance_note` as a specification function and as a loop |
| `coef_std.dfy` | `CoefStd` | `format_coef_std` over an insertion-ordered dict |
| `export.dfy` | `LatexExport` | column format, caption, the Styler request, the rewrites, the notes injection, `export_to_latex` |
| `assembly.dfy` | `ModelTables` | the table assembly of the model script |

Design choices:

- The pandas Styler is opaque. `export_to_latex` receives it as a function
  parameter `render` from the request it is given (header, body rows,
  caption, label, position, column format, rules) to a string. Everything
  the source does to that string afterwards is modelled exactly.
- The number formatter `f"{x:.4f}"` is a parameter `fmt: real -> string`.
- A Python dict is a sequence of key/value pairs in insertion order. Storing
  under an existing key overwrites the value in place, as Python does.
- `_apply_parameter_mapping` changes the caller's frame, so the frame is a
  class and the method declares `modifies df`. `export_to_latex` carries the
  same frame clause.
- The variable name `clean_n` at src/_latex_tables.py:94 hints that note text
  was meant to be cleaned, but `n.replace("%", r"%")` replaces `%` by the same
  one-character string `%`, so notes are emitted verbatim. The model follows
  the code: `SignificanceNote` performs that replace, and
  `Text.ReplaceAllSelf` proves it changes nothing.

## Model

| member | source | states |
|---|---|---|
| Significance.Stars | src/_latex_tables.py:52-59 | the result is at most three characters, all of them `*` |
| Significance.StarsClasses | src/_latex_tables.py:52-59 | `***` iff p < 0.01, `**` iff 0.01 <= p < 0.05, `*` iff 0.05 <= p < 0.10, empty iff p >= 0.10 |
| Significance.StarsAntitone | src/_latex_tables.py:52-59 | a larger p-value never gets more stars |
| Significance.StarsAtThresholds | src/_latex_tables.py:53-57 | the exact thresholds 0.01, 0.05, 0.10 fall into the weaker class, because the comparisons are strict |
| CrossRef.Lower | src/_latex_tables.py:63 | lower-casing keeps the length and leaves no upper-case ASCII letter |
| CrossRef.Hyphenate | src/_latex_tables.py:63 | defines the two replacements of line 63 in their order: first `_` to `-`, then space to `-` |
| CrossRef.KeepSlugChars | src/_latex_tables.py:64 | the filtered string contains only `a-z`, `0-9` and `-`, and is no longer than the input |
| CrossRef.TrimLeft | src/_latex_tables.py:65 | stripping leading `-` leaves a suffix of the input that does not start with `-`, and every dropped character is `-` |
| CrossRef.TrimRight | src/_latex_tables.py:65 | stripping trailing `-` leaves a prefix of the input that does not end with `-`, and every dropped character is `-` |
| CrossRef.CollapseHyphens | src/_latex_tables.py:65 | collapsing runs of `-` keeps the first character, keeps a slug alphabet, and leaves no `--` |
| CrossRef.Strip | src/_latex_tables.py:65 | defines `strip("-")` as stripping `-` from the left and then from the right |
| CrossRef.StripGivesSlug | src/_latex_tables.py:65 | stripping `-` from both ends of a collapsed, filtered string gives a slug: slug characters only, no `--`, no `-` at either end |
| CrossRef.Normalize | src/_latex_tables.py:63-65 | defines the label body as the steps of lines 63-65 in the source's order: lower-case, hyphenate, filter to `[a-z0-9-]`, collapse runs of `-`, strip `-` |
| CrossRef.NormalizeIsSlug | src/_latex_tables.py:63-65 | the normalised stem is a slug, for every stem |
| CrossRef.DeterministicLabel | src/_latex_tables.py:62-66 | the label starts with `tab:` and the rest is a slug |
| CrossRef.KeepSlugCharsFixes | src/_latex_tables.py:64 | the character filter leaves a string of slug characters unchanged |
| CrossRef.CollapseHyphensFixes | src/_latex_tables.py:65 | collapsing leaves a string without `--` unchanged |
| CrossRef.NormalizeFixesSlugs | src/_latex_tables.py:63-65 | every slug normalises to itself |
| CrossRef.NormalizeIdempotent | src/_latex_tables.py:63-65 | normalising twice is normalising once |
| CrossRef.DeterministicLabelIdempotent | src/_latex_tables.py:62-66 | re-deriving a label from the part after `tab:` gives the same label |
| CrossRef.KeepSlugCharsAppend | src/_latex_tables.py:64 | the filter distributes over concatenation |
| CrossRef.KeepSlugCharsUnit | src/_latex_tables.py:64 | a single character is kept exactly when it is in `[a-z0-9-]`; with the append lemma this fixes the filter on every string |
| CrossRef.CollapseHyphensAppend | src/_latex_tables.py:65 | collapsing splits over a concatenation whose boundary does not join two `-` |
| CrossRef.CollapseHyphensUnits | src/_latex_tables.py:65 | a non-empty run of `-` collapses to one `-`, any other character is kept; with the append lemma this fixes the collapse on every string |
| CrossRef.CollapseRunWord | src/_latex_tables.py:65 | a run of `-` before a word without `--` becomes one `-`, the word is kept, and the rest collapses on its own |
| CrossRef.CollapseSeparated | src/_latex_tables.py:65 | two words surrounded and separated by runs of `-` collapse to the words with single `-` around and between them |
| CrossRef.StripPadded | src/_latex_tables.py:65 | stripping `-` from both ends of `-` + w + `-` gives back w when w does not start or end with `-` |
| CrossRef.LabelThroughFilter | src/_latex_tables.py:62-66 | a stem whose lowered, hyphenated, filtered form is already a slug `t` gets the label `tab:` + `t` |
| CrossRef.LabelOfSnakeStem | src/_latex_tables.py:62-66 | a lower-case stem that becomes the slug `t` when `_` turns into `-` gets the label `tab:` + `t` |
| CrossRef.VariantsShareLabel | src/_latex_tables.py:62-66 | `My Results Table!!` and `my_results_table` both get `tab:my-results-table` |
| CrossRef.StripSeparated | src/_latex_tables.py:65 | two words surrounded and separated by runs of `-` collapse and strip to the words joined by one `-` |
| CrossRef.SampleEdgeLabel | src/_latex_tables.py:62-66 | `__My__Table__`, with runs of separators and separators at both ends, gets the label `tab:my-table` |
| Text.ReplaceAll | src/_latex_tables.py:187-188 | defines Python's `str.replace` for a non-empty pattern: a left-to-right, non-overlapping replacement whose scan resumes after the inserted text, never inside it; used for lines 63, 94, 167, 175-188 and 193-195 |
| Text.ReplaceAllSelf | src/_latex_tables.py:94 | replacing a pattern by itself changes nothing, so the `%` replace is a no-op |
| Text.ReplaceCharPointwise | src/_latex_tables.py:63 | replacing one character by one character keeps the length and changes exactly the matching positions |
| Text.ReplaceAllAbsent | src/_latex_tables.py:175-181 | a replace whose pattern does not occur leaves the text unchanged |
| Text.ReplaceAllSingle | src/_latex_tables.py:193-195 | with a single occurrence, the replacement lands there and the text around it is kept |
| Text.SingleMarkerReplaced | src/_latex_tables.py:188 | replacing the single occurrence of a marker pattern, in a text without the replacement, leaves exactly one occurrence of the replacement, where the pattern was |
| Text.ReplaceAllRemoves | src/_latex_tables.py:188 | when the replacement cannot create the pattern again, no occurrence is left |
| Text.NatToString | src/_latex_tables.py:95 | a note number prints as a non-empty run of digits without a leading zero |
| Text.ParseNatToString | src/_latex_tables.py:95 | reading the printed number back gives the number |
| Text.NatToStringInjective | src/_latex_tables.py:93-95 | different numbers print differently |
| Text.Join | src/_latex_tables.py:105 | defines `sep.join(xs)`: empty for no items, the item itself for one, otherwise the items with `sep` between each adjacent pair |
| ParamLabels.Relabel | src/_latex_tables.py:139 | defines `m.get(x, x)`: the mapped label when `x` is a key, otherwise `x` itself; the same lookup serves scripts/models_dataset1.py:44 |
| ParamLabels.RelabelAll | src/_latex_tables.py:139 | relabelling keeps the number of rows |
| ParamLabels.ApplyParameterMapping | src/_latex_tables.py:111-140 | on a valid frame, the index becomes the local-map relabelling of the old index, columns and cells are unchanged, and the frame stays valid |
| ParamLabels.RelabelFallback | src/_latex_tables.py:139 | an unmapped name keeps its label, a mapped one gets the map's label |
| ParamLabels.ParamMapValuesNotLocalKeys | src/_latex_tables.py:113-137 | no label produced by `PARAM_MAP` is a key of the local map |
| ParamLabels.SecondPassKeepsScriptLabels | src/_latex_tables.py:139 | relabelling a script-relabelled index through the local map changes nothing |
| ParamLabels.MapsDiverge | src/_latex_tables.py:113-137 | the maps disagree on `beta[1]` and `beta`, and the local map adds exactly `phi[1]` and `phi[1]_std` |
| ParamLabels.DesiredOrderIsParamMapKeys | src/_latex_tables.py:28-49 | `DESIRED_ORDER` has twenty names, exactly the keys of `PARAM_MAP` |
| ParamLabels.DesiredOrderPairs | src/_latex_tables.py:28-49 | every odd position holds the previous name with `_std` appended |
| ParamLabels.DesiredStdLabels | src/_latex_tables.py:5-26 | `PARAM_MAP` labels every `_std` name of `DESIRED_ORDER` with the empty string |
| ParamLabels.DesiredOrderDistinct | src/_latex_tables.py:28-49 | no name occurs twice in `DESIRED_ORDER` |
| Notes.Truthy | src/_latex_tables.py:74 | defines Python truthiness of `custom_note`: `None`, an empty string and an empty list are false |
| Notes.HasStars | src/_latex_tables.py:72 | defines `has_stars`: some cell's text contains `*`; a missing cell prints as `nan` and has none |
| Notes.CustomNotes | src/_latex_tables.py:85-89 | a falsy note contributes nothing, a string contributes itself, a list contributes its elements in order |
| Notes.RawNotes | src/_latex_tables.py:78-89 | defines the notes in numbering order: the significance legend first when the table has stars, then the custom notes |
| Notes.NoteItem | src/_latex_tables.py:95 | defines item `i`: `\item Note `, the decimal number, `: ` and the note text verbatim |
| Notes.NoteItems | src/_latex_tables.py:93-95 | one item per note |
| Notes.Wrap | src/_latex_tables.py:97-108 | defines the `tablenotes` environment: a leading newline, `\vspace{0.1cm}`, `\begin{tablenotes}`, `\small`, the items joined by newlines, `\end{tablenotes}`, each on its own line |
| Notes.NotesBlock | src/_latex_tables.py:72-108 | defines the returned block: empty when there are no stars and the note is falsy, otherwise the wrapped, numbered items |
| Notes.SignificanceNote | src/_latex_tables.py:69-108 | the loop builds exactly the specified notes block |
| Notes.NotesBlockEmptyIff | src/_latex_tables.py:72-75 | the block is empty iff no cell has a `*` and the custom note is falsy; otherwise it starts with a line break |
| Notes.NumberedNotes | src/_latex_tables.py:78-95 | there are (1 if stars else 0) + (number of custom notes) items; the legend is note 1 when present; custom note k is numbered after it and copied verbatim |
| Notes.NoteNumbersDistinct | src/_latex_tables.py:93-95 | no two items carry the same number |
| CoefStd.ValueOf | src/_latex_tables.py:211-212 | defines `d[k]` on the ordered entries: the value stored under `k`, which must be a key |
| CoefStd.Put | src/_latex_tables.py:211-212 | storing under an existing key keeps the keys; a new key is appended at the end |
| CoefStd.PutThenGet | src/_latex_tables.py:211-212 | after storing, the key reads as the new value and every other key reads as before |
| CoefStd.PutKeepsKeysDistinct | src/_latex_tables.py:209-212 | the dict's keys stay free of repeats |
| CoefStd.Formatted | src/_latex_tables.py:209-212 | for parameters with distinct names, each with a standard error, defines the dict after the loop: for each parameter in order, store its formatted estimate under its name, then its parenthesised standard error under its name plus `_std` |
| CoefStd.FormatCoefStd | src/_latex_tables.py:201-214 | the loop builds exactly the specified ordered dict |
| CoefStd.RowNames | src/_latex_tables.py:210-212 | 2n names, the parameter's name at position 2i and the name with `_std` appended at 2i+1 |
| CoefStd.FormattedKeys | src/_latex_tables.py:209-212 | the keys have no repeats and are exactly the parameter names and their `_std` names |
| CoefStd.EveryRowNameIsKey | src/_latex_tables.py:210-212 | every parameter name and every `_std` name is a key of the result |
| CoefStd.FormattedStep | src/_latex_tables.py:210-212 | with unambiguous names, each parameter appends exactly its two entries |
| CoefStd.FormattedInterleaved | src/_latex_tables.py:201-214 | with unambiguous names, the result has 2n entries, alternating `name: fmt(estimate)` and `name_std: (fmt(std_err))` in the parameters' order |
| CoefStd.StdEntriesParenthesised | src/_latex_tables.py:212 | every `_std` entry's key is the name with `_std` appended, and its text starts with `(` and ends with `)` |
| LatexExport.ColumnFormat | src/_latex_tables.py:163 | `l` followed by one `c` per data column |
| LatexExport.RenderCell | src/_latex_tables.py:160 | a missing cell prints as `---`, a filled one as its text |
| LatexExport.ResolveCaption | src/_latex_tables.py:167 | defines `caption or stem.replace("_", " ").title()`: a given non-empty caption, otherwise the title-cased stem with `_` turned into spaces |
| LatexExport.TitleFrom | src/_latex_tables.py:167 | the `str.title()` scan from a given state keeps the length; `afterLetter` is that state, whether the character before the scanned text was a letter |
| LatexExport.TitleCase | src/_latex_tables.py:167 | title-casing keeps the length |
| LatexExport.TitleFromPointwise | src/_latex_tables.py:167 | each character is title-cased according to whether the one before it is a letter |
| LatexExport.TitleCaseWords | src/_latex_tables.py:167 | word-initial letters become upper case, the other letters lower case, and non-letters are kept |
| LatexExport.DefaultCaption | src/_latex_tables.py:167 | a non-empty caption is used as it is; otherwise the caption is as long as the stem, has a space exactly where the stem has `_` or a space, and starts every word with a capital |
| LatexExport.BodyRow | src/_latex_tables.py:154-159 | a body row is the row label followed by the rendered cells |
| LatexExport.BuildRequest | src/_latex_tables.py:152-172 | defines the Styler call: header `""` plus the columns, one body row per index label, the resolved caption, the deterministic label, `htbp`, the column format and `hrules` |
| LatexExport.RequestShape | src/_latex_tables.py:154-172 | the header and every row are as wide as the column format, each row starts with its label, the label is `tab:` + a slug, the position is `htbp` and rules are on |
| LatexExport.Retag | src/_latex_tables.py:175-187 | defines the first three replacements of step 3 in order: the float opening, the float closing, then the tabular head with its column format |
| LatexExport.Rewrite | src/_latex_tables.py:175-188 | after the four replacements no `\end{tabular}` remains |
| LatexExport.RewriteSingleTabularx | src/_latex_tables.py:188 | when the text before the last replacement has one `\end{tabular}` and no `\end{tabularx}`, the rewritten text has exactly one `\end{tabularx}`, at the same place |
| LatexExport.InjectNotes | src/_latex_tables.py:191-195 | defines step 4: a non-empty notes block goes on a new line after every `\end{tabularx}`; an empty block leaves the text unchanged |
| LatexExport.InjectAfterTabular | src/_latex_tables.py:191-195 | a non-empty block goes on the line right after the single `\end{tabularx}`, and the text around it is kept |
| LatexExport.ExportToLatex | src/_latex_tables.py:143-195 | the caller's index is relabelled through the local map, the frame stays valid, and the output is the rewritten rendering of the relabelled table with the notes injected |
| LatexExport.ExportWithoutNotes | src/_latex_tables.py:191-195 | without stars and custom notes the output is the rewritten rendering alone |
| LatexExport.ExportWithNotes | src/_latex_tables.py:191-195 | with stars or a custom note, the notes block follows the single `\end{tabularx}` on its own line |
| ModelTables.Series | scripts/models_dataset1.py:36-38 | defines one model's column as `format_coef_std` of its fit |
| ModelTables.Rows | scripts/models_dataset1.py:39 | defines the rows of `pd.DataFrame(table_data)` as the union of the keys of all the models' series |
| ModelTables.Lookup | scripts/models_dataset1.py:39-42 | defines a model's cell in a row: its entry when the model has that key, otherwise missing (NaN) |
| ModelTables.SelectOrder | scripts/models_dataset1.py:41 | the selection is no longer than the order |
| ModelTables.SelectOrderFilters | scripts/models_dataset1.py:41 | the selection is a subsequence of the order and holds exactly the names that are rows |
| ModelTables.SelectedRows | scripts/models_dataset1.py:41-42 | the rows are an order-preserving choice from `DESIRED_ORDER`, without repeats, at most twenty; a name is kept iff it is in `DESIRED_ORDER` and some model has it, so absent names are skipped and unlisted names dropped |
| ModelTables.SelectKeepsPairs | scripts/models_dataset1.py:41 | filtering a paired order whose pairs are rows together keeps the pairs adjacent, and keeps `_std` labels empty |
| ModelTables.SeriesPairs | src/_latex_tables.py:210-212 | a model's series holds a coefficient exactly when it holds its `_std` row |
| ModelTables.RowsPaired | scripts/models_dataset1.py:36-39 | the union of rows holds a coefficient exactly when it holds its `_std` row |
| ModelTables.DesiredCoefficientsPlain | src/_latex_tables.py:28-49 | no coefficient name of `DESIRED_ORDER` ends in `_std` |
| ModelTables.AssembleTable | scripts/models_dataset1.py:36-44 | the assembled table is well formed: one label and one row of cells per selected name, one cell per model |
| ModelTables.BuildFrame | scripts/models_dataset1.py:36-44 | a new, valid data frame holds exactly the assembled table |
| ModelTables.AssembledRowsPaired | scripts/models_dataset1.py:41-44 | each coefficient row is directly followed by its `_std` row, and that row's label is empty |
| ModelTables.AssembledLabels | scripts/models_dataset1.py:44 | each row label is `PARAM_MAP` of its name, and the export's second relabelling leaves the labels unchanged |
| ModelTables.AssembledCells | scripts/models_dataset1.py:39-42 | a cell is missing exactly when the model lacks that row; otherwise it holds the model's formatted entry |

## Left out

- The pandas Styler (`styler.to_latex`, `hide`, `format`) is the opaque parameter `render`. The model does not capture how cells and rows are printed inside it.
- The float formatting `f"{x:.4f}"` and the Styler's `precision=4` are the parameter `fmt`. Values are `real`, and no rounding is modelled.
- `reset_index()` and the renaming of the `index` column to `""` are modelled only as the request's header `""` + columns and a label-first body row.
- The path: only `full_path.stem` is modelled, as the string `stem`. Writing the file (src/_latex_tables.py:197-198) is left to the caller.
- `src/utils.py` (config loading, directories, output dispatch) is not part of this model.
- Estimating the models with `arch_model(...).fit` is not modelled. A fit is its parameter names, estimates and standard errors.
- The copies of the assembly step in the other model scripts are not modelled again, and neither are the plotting, diagnostics and data-loading code.
- Unicode: `lower()` and `title()` act on ASCII letters only. Every other character is treated as uncased.
- `has_stars` in `_get_significance_note` is `"*" in str(x)` on each cell. A missing cell prints as `nan`, which has no star, so it never counts.
- `_get_significance_note` receives the relabelled frame. Relabelling touches only the index, so the model passes the cells unchanged.
- CoefStd.FormattedInterleaved: the 2n alternating shape is proved only for unambiguous names. These are distinct names, none another's name plus `_std`. When a parameter's name equals another's name plus `_std`, Python's dict overwrites that entry in place, and `Formatted` models that, but no shape is claimed for it.
- CoefStd.StdEntriesParenthesised: same condition as `FormattedInterleaved`.
- ModelTables.AssembledRowsPaired: proved only when no fitted parameter name itself ends in `_std`. Otherwise a fit could contribute a `_std` row without its coefficient.
- LatexExport.ExportWithNotes: placement is stated for a rendering with a single `\end{tabularx}`. With several, `ReplaceAll` puts the block after each of them, as Python's replace does. `RewriteSingleTabularx` derives that condition from the text before the last replacement. It is not traced back through the first three replacements to the Styler's raw output.
- LatexExport.InjectAfterTabular: same single-occurrence condition as `ExportWithNotes`.
- CoefStd.Formattable: `std_errs[name]` at src/_latex_tables.py:212 raises `KeyError` for a parameter without a standard error. The model makes this a `requires` of `Formatted` and `FormatCoefStd` and does not model the exception.
- CoefStd.Formatted: a repeated parameter name makes `params[name]` at src/_latex_tables.py:211 a Series, and formatting it raises `TypeError`. The model excludes repeated names through `Formattable` and does not model the exception. `FormatCoefStd` has the same requires.
- Significance.Stars: the p-value is a `real`, so NaN cannot be expressed. On NaN every comparison at src/_latex_tables.py:53-57 is false and `get_stars` returns `""`.
- The row order of the union `pd.DataFrame(table_data)` is not modelled; the rows are a set. That loses nothing, because `.loc[existing_order]` fixes the order.
