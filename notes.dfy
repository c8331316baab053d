/** The numbered `tablenotes` block placed under an exported table
    (`_get_significance_note`). */
module Notes {
  import opened Text
  import opened Frames

  /** The `custom_note` argument: absent, one note, or a list of notes. */
  datatype CustomNote = NoNote | OneNote(text: string) | NoteList(items: seq<string>)

  /** Python truthiness of `custom_note`: an empty string and an empty list are
      false. */
  predicate Truthy(note: CustomNote) {
    match note
    case NoNote => false
    case OneNote(t) => t != ""
    case NoteList(xs) => xs != []
  }

  /** The notes `custom_note` contributes: one for a string, each element of a
      list in order, none when it is falsy. */
  function CustomNotes(note: CustomNote): (r: seq<string>)
    ensures Truthy(note) <==> r != []
    ensures note.NoteList? ==> r == note.items
    ensures note.OneNote? && Truthy(note) ==> r == [note.text]
  {
    if !Truthy(note) then []
    else match note
      case OneNote(t) => [t]
      case NoteList(xs) => xs
  }

  /** `"*" in str(x)` for one cell; a missing cell prints as `nan`. */
  predicate CellHasStar(c: Cell) {
    c.Filled? && '*' in c.text
  }

  /** Some cell of the table carries a significance star. */
  predicate HasStars(cells: seq<seq<Cell>>) {
    exists r, c :: 0 <= r < |cells| && 0 <= c < |cells[r]| && CellHasStar(cells[r][c])
  }

  /** The significance legend, always the first note when it appears. */
  const Legend: string :=
    @"\textit{Note:} ***, **, and * denote significance at the 1\%, 5\%, and 10\% levels, respectively."

  /** The notes in the order they are numbered: the legend when the table has
      stars, then the custom notes. */
  function RawNotes(stars: bool, note: CustomNote): seq<string> {
    (if stars then [Legend] else []) + CustomNotes(note)
  }

  /** Item `i` (counted from 1). The source first rewrites `%` to `%` in the
      note, which leaves it as it is (`Text.ReplaceAllSelf`); the method below
      performs that rewrite. */
  function NoteItem(i: nat, n: string): string {
    @"\item Note " + NatToString(i) + ": " + n
  }

  /** The items for a list of notes, numbered consecutively from 1. */
  function NoteItems(raw: seq<string>): (r: seq<string>)
    ensures |r| == |raw|
  {
    seq(|raw|, k requires 0 <= k < |raw| => NoteItem(k + 1, raw[k]))
  }

  /** The `tablenotes` environment around the items, one per line. */
  function Wrap(items: seq<string>): string {
    "\n" + @"\vspace{0.1cm}" + "\n" + @"\begin{tablenotes}" + "\n" + @"\small" + "\n"
      + Join(items, "\n") + "\n" + @"\end{tablenotes}"
  }

  /** The block `_get_significance_note` returns for a table's cells. */
  function NotesBlock(cells: seq<seq<Cell>>, note: CustomNote): string {
    var stars := HasStars(cells);
    if !stars && !Truthy(note) then ""
    else Wrap(NoteItems(RawNotes(stars, note)))
  }

  /** `_get_significance_note`: numbers the notes one by one. */
  method SignificanceNote(cells: seq<seq<Cell>>, note: CustomNote) returns (block: string)
    ensures block == NotesBlock(cells, note)
  {
    var stars := HasStars(cells);
    if !stars && !Truthy(note) {
      return "";
    }
    var raw := RawNotes(stars, note);
    var items: seq<string> := [];
    for i := 0 to |raw|
      invariant |items| == i
      invariant forall k :: 0 <= k < i ==> items[k] == NoteItem(k + 1, raw[k])
    {
      var clean := ReplaceAll(raw[i], "%", "%");
      ReplaceAllSelf(raw[i], "%");
      items := items + [NoteItem(i + 1, clean)];
    }
    assert items == NoteItems(raw);
    block := Wrap(items);
  }

  /** The block is empty exactly when the table has no star and no custom note
      is given; otherwise it opens with a line break and the `tablenotes`
      environment. */
  lemma NotesBlockEmptyIff(cells: seq<seq<Cell>>, note: CustomNote)
    ensures NotesBlock(cells, note) == "" <==> !HasStars(cells) && !Truthy(note)
    ensures NotesBlock(cells, note) != "" ==> NotesBlock(cells, note)[0] == '\n'
  {
  }

  /** The notes are numbered 1, 2, ... without gaps: the legend is note 1 when
      the table has stars, and the custom notes follow in their own order, each
      copied verbatim. */
  lemma NumberedNotes(stars: bool, note: CustomNote)
    ensures var offset := if stars then 1 else 0;
      var items := NoteItems(RawNotes(stars, note));
      && |items| == offset + |CustomNotes(note)|
      && (stars ==> items[0] == @"\item Note " + NatToString(1) + ": " + Legend)
      && forall k :: 0 <= k < |CustomNotes(note)| ==>
           items[offset + k] == @"\item Note " + NatToString(offset + k + 1) + ": " + CustomNotes(note)[k]
  {
  }

  /** Distinct items carry distinct numbers, so no two notes share one. */
  lemma NoteNumbersDistinct(raw: seq<string>, j: nat, k: nat)
    requires j < k < |raw|
    ensures NoteItems(raw)[j][..|@"\item Note "| + |NatToString(j + 1)|]
         != NoteItems(raw)[k][..|@"\item Note "| + |NatToString(k + 1)|]
  {
    var head := @"\item Note ";
    var a := NoteItems(raw)[j];
    var b := NoteItems(raw)[k];
    assert a[..|head| + |NatToString(j + 1)|] == head + NatToString(j + 1);
    assert b[..|head| + |NatToString(k + 1)|] == head + NatToString(k + 1);
    NatToStringInjective(j + 1, k + 1);
    assert (head + NatToString(j + 1))[|head|..] == NatToString(j + 1);
    assert (head + NatToString(k + 1))[|head|..] == NatToString(k + 1);
  }
}
