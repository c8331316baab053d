/** `export_to_latex`: builds the LaTeX for a results table, rewrites the
    renderer's output into a `threeparttable` around a full-width `tabularx`,
    and injects the notes block under the tabular. The pandas Styler itself is
    the parameter `render`. */
module LatexExport {
  import opened Text
  import opened Frames
  import opened CrossRef
  import opened ParamLabels
  import opened Notes

  datatype Option<T> = None | Some(value: T)

  /** Everything `styler.to_latex` is given: the header row, the body rows as
      the cells will print, and the keyword arguments. */
  datatype StylerRequest = StylerRequest(
    header: seq<string>,
    body: seq<seq<string>>,
    caption: string,
    tableLabel: string,
    position: string,
    columnFormat: string,
    hrules: bool)

  /** `"l" + "c" * k`: the label column left-aligned, each result centred. */
  function ColumnFormat(k: nat): (r: string)
    ensures |r| == k + 1
    ensures r[0] == 'l' && forall i :: 1 <= i < |r| ==> r[i] == 'c'
  {
    "l" + seq(k, _ => 'c')
  }

  /** `format(precision=4, na_rep="---")` on a cell that already holds text. */
  function RenderCell(c: Cell): (r: string)
    ensures c.Missing? ==> r == "---"
    ensures c.Filled? ==> r == c.text
  {
    match c
    case Missing => "---"
    case Filled(t) => t
  }

  predicate IsLetter(c: char) {
    'a' <= c <= 'z' || 'A' <= c <= 'Z'
  }

  function UpperChar(c: char): char {
    if 'a' <= c <= 'z' then (c as int - 32) as char else c
  }

  /** One character of `str.title()`: a letter right after a letter is made
      lower-case, any other letter upper-case; other characters stay. */
  function TitleChar(c: char, afterLetter: bool): char {
    if !IsLetter(c) then c
    else if afterLetter then LowerChar(c)
    else UpperChar(c)
  }

  function TitleFrom(s: string, afterLetter: bool): (r: string)
    ensures |r| == |s|
  {
    if s == [] then []
    else [TitleChar(s[0], afterLetter)] + TitleFrom(s[1..], IsLetter(s[0]))
  }

  /** `str.title()` on ASCII text. */
  function TitleCase(s: string): (r: string)
    ensures |r| == |s|
  {
    TitleFrom(s, false)
  }

  lemma {:induction false} TitleFromPointwise(s: string, afterLetter: bool)
    ensures forall i :: 0 <= i < |s| ==>
      TitleFrom(s, afterLetter)[i] == TitleChar(s[i], if i == 0 then afterLetter else IsLetter(s[i - 1]))
  {
    if s != [] {
      TitleFromPointwise(s[1..], IsLetter(s[0]));
      var r := TitleFrom(s, afterLetter);
      forall i | 1 <= i < |s|
        ensures r[i] == TitleChar(s[i], IsLetter(s[i - 1]))
      {
        assert r[i] == TitleFrom(s[1..], IsLetter(s[0]))[i - 1];
        assert s[1..][i - 1] == s[i];
        if i > 1 {
          assert s[1..][i - 2] == s[i - 1];
        }
      }
    }
  }

  /** Each run of letters starts with a capital and continues in lower case;
      every other character is kept. */
  lemma TitleCaseWords(s: string)
    ensures forall i :: 0 <= i < |s| && IsLetter(s[i]) && (i == 0 || !IsLetter(s[i - 1])) ==>
      TitleCase(s)[i] == UpperChar(s[i])
    ensures forall i :: 0 < i < |s| && IsLetter(s[i]) && IsLetter(s[i - 1]) ==>
      TitleCase(s)[i] == LowerChar(s[i])
    ensures forall i :: 0 <= i < |s| && !IsLetter(s[i]) ==> TitleCase(s)[i] == s[i]
  {
    TitleFromPointwise(s, false);
    var r := TitleCase(s);
    assert r == TitleFrom(s, false);
    forall i | 0 <= i < |s| && !IsLetter(s[i]) ensures r[i] == s[i] {
      assert r[i] == TitleChar(s[i], i > 0 && IsLetter(s[i - 1]));
    }
  }

  /** `caption or full_path.stem.replace("_", " ").title()` */
  function ResolveCaption(caption: Option<string>, stem: string): string {
    if caption.Some? && caption.value != "" then caption.value
    else TitleCase(ReplaceAll(stem, "_", " "))
  }

  /** A given non-empty caption is used as it is; otherwise the caption is the
      stem with `_` turned into spaces and each word capitalised. */
  lemma DefaultCaption(caption: Option<string>, stem: string)
    ensures caption.Some? && caption.value != "" ==> ResolveCaption(caption, stem) == caption.value
    ensures !(caption.Some? && caption.value != "") ==>
      var r := ResolveCaption(caption, stem);
      && |r| == |stem|
      && (forall i :: 0 <= i < |r| ==> (r[i] == ' ' <==> stem[i] == '_' || stem[i] == ' '))
      && (forall i :: 0 <= i < |r| && IsLetter(stem[i]) && (i == 0 || !IsLetter(stem[i - 1])) ==>
            r[i] == UpperChar(stem[i]))
  {
    ReplaceCharPointwise(stem, "_", " ");
    var spaced := ReplaceAll(stem, "_", " ");
    TitleCaseWords(spaced);
    var r := TitleCase(spaced);
    forall i | 0 <= i < |spaced|
      ensures (IsLetter(spaced[i]) <==> IsLetter(stem[i])) && (r[i] == ' ' <==> spaced[i] == ' ')
    {
      if IsLetter(spaced[i]) {
        if i > 0 && IsLetter(spaced[i - 1]) {
          assert r[i] == LowerChar(spaced[i]);
        } else {
          assert r[i] == UpperChar(spaced[i]);
        }
      }
    }
  }

  /** The row of the exported frame after `reset_index()`: the row label
      followed by the rendered cells. */
  function BodyRow(rowLabel: string, row: seq<Cell>): (r: seq<string>)
    ensures |r| == |row| + 1 && r[0] == rowLabel
    ensures forall c :: 0 <= c < |row| ==> r[c + 1] == RenderCell(row[c])
  {
    [rowLabel] + seq(|row|, c requires 0 <= c < |row| => RenderCell(row[c]))
  }

  /** The arguments handed to the Styler for a table: the former index becomes
      an unnamed first column, the index itself is hidden. */
  function BuildRequest(t: Table, stem: string, caption: Option<string>): StylerRequest
    requires t.WellFormed()
  {
    StylerRequest(
      [""] + t.columns,
      seq(|t.index|, r requires 0 <= r < |t.index| => BodyRow(t.index[r], t.cells[r])),
      ResolveCaption(caption, stem),
      DeterministicLabel(stem),
      "htbp",
      ColumnFormat(|t.columns|),
      true)
  }

  /** The column format has one letter per printed column, the header and
      every body row are that wide, and the label is `tab:` + a slug. */
  lemma RequestShape(t: Table, stem: string, caption: Option<string>)
    requires t.WellFormed()
    ensures var req := BuildRequest(t, stem, caption);
      && |req.header| == |req.columnFormat| && req.header[0] == ""
      && |req.body| == |t.index|
      && (forall r :: 0 <= r < |req.body| ==>
            |req.body[r]| == |req.columnFormat| && req.body[r][0] == t.index[r])
      && req.tableLabel[..4] == "tab:" && IsSlug(req.tableLabel[4..])
      && req.position == "htbp" && req.hrules
  {
  }

  const TableBegin: string := @"\begin{table}[htbp]"
  const TableEnd: string := @"\end{table}"
  const TabularEnd: string := @"\end{tabular}"
  const TabularxEnd: string := @"\end{tabularx}"

  /** The opening of the float, followed by centring and `threeparttable`. */
  function ThreeparttableBegin(): string {
    TableBegin + "\n" + @"\centering" + "\n" + @"\begin{threeparttable}"
  }

  function ThreeparttableEnd(): string {
    @"\end{threeparttable}" + "\n" + TableEnd
  }

  function TabularHead(colFmt: string): string {
    @"\begin{tabular}{" + colFmt + "}"
  }

  /** A full-width `tabularx` whose columns spread to fill the line. */
  function TabularxHead(colFmt: string): string {
    @"\begin{tabularx}{\textwidth}{@{\extracolsep{\fill}}" + colFmt + "}"
  }

  /** `\end{tabularx}` cannot contain or start a new `\end{tabular}`. */
  lemma TabularEndMarker(pat: string, rep: string)
    requires pat == TabularEnd && rep == TabularxEnd
    ensures Marker(pat, rep)
  {
    assert rep[..|pat|][12] != pat[12];
  }

  /** The first three replacements of step 3: the float and the head of the
      tabular. */
  function Retag(raw: string, colFmt: string): string {
    var s1 := ReplaceAll(raw, TableBegin, ThreeparttableBegin());
    var s2 := ReplaceAll(s1, TableEnd, ThreeparttableEnd());
    ReplaceAll(s2, TabularHead(colFmt), TabularxHead(colFmt))
  }

  /** The four replacements of step 3, in the source's order. */
  function Rewrite(raw: string, colFmt: string): (r: string)
    ensures !Occurs(r, TabularEnd)
  {
    var s3 := Retag(raw, colFmt);
    TabularEndMarker(TabularEnd, TabularxEnd);
    ReplaceAllRemoves(s3, TabularEnd, TabularxEnd);
    ReplaceAll(s3, TabularEnd, TabularxEnd)
  }

  /** The last replacement turns a single `\end{tabular}` into the single
      `\end{tabularx}` that `ExportWithNotes` needs, when the text had no
      `\end{tabularx}` of its own. */
  lemma RewriteSingleTabularx(raw: string, colFmt: string, i: nat)
    requires OccursAt(Retag(raw, colFmt), TabularEnd, i)
    requires forall j: nat :: j != i ==> !OccursAt(Retag(raw, colFmt), TabularEnd, j)
    requires !Occurs(Retag(raw, colFmt), TabularxEnd)
    ensures OccursAt(Rewrite(raw, colFmt), TabularxEnd, i)
    ensures forall j: nat :: j != i ==> !OccursAt(Rewrite(raw, colFmt), TabularxEnd, j)
  {
    TabularEndMarker(TabularEnd, TabularxEnd);
    SingleMarkerReplaced(Retag(raw, colFmt), TabularEnd, TabularxEnd, i);
  }

  /** Step 4: a non-empty notes block goes on the line after every
      `\end{tabularx}`; an empty one changes nothing. */
  function InjectNotes(s: string, block: string): string {
    if block == "" then s
    else ReplaceAll(s, TabularxEnd, TabularxEnd + "\n" + block)
  }

  /** With a single `\end{tabularx}` the block lands right after it and the
      rest of the text is kept on both sides. */
  lemma InjectAfterTabular(s: string, block: string, i: nat)
    requires block != ""
    requires OccursAt(s, TabularxEnd, i)
    requires forall j: nat :: j != i ==> !OccursAt(s, TabularxEnd, j)
    ensures InjectNotes(s, block) ==
      s[..i + |TabularxEnd|] + "\n" + block + s[i + |TabularxEnd|..]
  {
    ReplaceAllSingle(s, TabularxEnd, TabularxEnd + "\n" + block, i);
    assert s[..i + |TabularxEnd|] == s[..i] + TabularxEnd;
  }

  /** `export_to_latex`: relabels the caller's frame, renders it, rewrites the
      result and injects the notes. Writing the file is left to the caller. */
  method ExportToLatex(df: DataFrame, stem: string, caption: Option<string>, note: CustomNote,
                       render: StylerRequest -> string)
    returns (latex: string)
    requires df.Valid()
    modifies df
    ensures df.Valid()
    ensures df.index == RelabelAll(LocalParamMap, old(df.index))
    ensures df.columns == old(df.columns) && df.cells == old(df.cells)
    ensures latex == InjectNotes(
      Rewrite(render(BuildRequest(Table(df.index, df.columns, df.cells), stem, caption)), ColumnFormat(|df.columns|)),
      NotesBlock(df.cells, note))
  {
    ApplyParameterMapping(df);
    var t := Table(df.index, df.columns, df.cells);
    var req := BuildRequest(t, stem, caption);
    latex := Rewrite(render(req), req.columnFormat);
    var block := SignificanceNote(df.cells, note);
    if block != "" {
      latex := ReplaceAll(latex, TabularxEnd, TabularxEnd + "\n" + block);
    }
  }

  /** Without stars and without a custom note the output is the rewritten
      rendering alone. */
  lemma ExportWithoutNotes(raw: string, colFmt: string, cells: seq<seq<Cell>>, note: CustomNote)
    requires !HasStars(cells) && !Truthy(note)
    ensures InjectNotes(Rewrite(raw, colFmt), NotesBlock(cells, note)) == Rewrite(raw, colFmt)
  {
    NotesBlockEmptyIff(cells, note);
  }

  /** With stars or a custom note, and a single `\end{tabularx}` in the
      rewritten rendering, the notes block sits on the line after it. */
  lemma ExportWithNotes(raw: string, colFmt: string, cells: seq<seq<Cell>>, note: CustomNote, i: nat)
    requires HasStars(cells) || Truthy(note)
    requires OccursAt(Rewrite(raw, colFmt), TabularxEnd, i)
    requires forall j: nat :: j != i ==> !OccursAt(Rewrite(raw, colFmt), TabularxEnd, j)
    ensures var s := Rewrite(raw, colFmt);
      InjectNotes(s, NotesBlock(cells, note)) ==
        s[..i + |TabularxEnd|] + "\n" + NotesBlock(cells, note) + s[i + |TabularxEnd|..]
  {
    NotesBlockEmptyIff(cells, note);
    InjectAfterTabular(Rewrite(raw, colFmt), NotesBlock(cells, note), i);
  }
}
