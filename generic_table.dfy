/**
 * The generic table widget: column headers, cells with their braille and
 * character-by-character rendering, a row of cells, and the table cursor
 * together with the per-page configuration that remembers column widths.
 *
 * Speech, beeps, the braille display and writing the configuration file
 * are outputs only; the model keeps the state they leave behind.
 */
module GenericTable {
  import opened Common

  /** The role strings the braille rendering distinguishes. */
  const RadioButtonRole := "radiobutton"
  const CheckBoxRole := "checkbox"

  /** Blanks appended to a cell's text before it is cut to the column width. */
  const BrlPadding := 35

  /** The width a column header starts with. */
  const DefaultWidth := 10

  /** A column: its identifier (used in configuration keys), its title and its braille width. */
  class ColumnHeader {
    const id: string
    var title: string
    var width: int

    constructor (id: string, title: string)
      ensures this.id == id && this.title == title && width == DefaultWidth
    {
      this.id := id;
      this.title := title;
      width := DefaultWidth;
    }
  }

  datatype CellError = NameMissing | HeaderMissing

  /** What moving the character cursor of a cell produced. */
  datatype CharStep =
    | TextMissing                          // the cell has no value, so its text cannot be built
    | Stepped(atEdge: bool, spoken: Spoken) // `atEdge`: already at the end (or start); nothing moved

  datatype Spoken = Silent | Char(c: char) | OutOfRange

  // ---------------------------------------------------------------------
  // Pure renderings of a cell

  /** The leading part of a cell's braille text: a marker for radio buttons and check boxes, else the name. */
  function BrlLabel(role: string, name: string, checked: Option<bool>, unavailable: bool): (r: string)
    ensures role != RadioButtonRole && role != CheckBoxRole ==> r == name
    ensures role == CheckBoxRole || (role == RadioButtonRole && !unavailable) ==>
              |r| == 3 && (r[1] == 'x' <==> checked == Some(true))
    ensures role == RadioButtonRole && unavailable ==> r == ""
  {
    if role == RadioButtonRole then
      (if unavailable then "" else if checked == Some(true) then "(x)" else "( )")
    else if role == CheckBoxRole then
      (if checked == Some(true) then "[x]" else "[ ]")
    else name
  }

  /** The lead followed by the value (when there is one), stripped, with every slash turned into a dot. */
  function BrlContent(lead: string, value: Option<string>): (r: string)
    ensures '/' !in r
  {
    var s := if value.Some? then Strip(lead + " " + value.value) else lead;
    ReplaceChar(s, '/', '.')
  }

  /** The text a cell occupies on the braille line: its content padded with blanks and cut to the column width. */
  function BrlCell(content: string, width: int): (r: string)
    ensures IsPrefix(r, content + Spaces(BrlPadding))
    ensures 0 <= width <= BrlPadding ==> |r| == width
  {
    SliceTo(content + Spaces(BrlPadding), width)
  }

  /** A cell's braille text never contains a slash, starts with its content, and has the column's width whenever the width fits the padding. */
  lemma BrlCellShape(lead: string, value: Option<string>, width: int)
    ensures var content := BrlContent(lead, value);
            var r := BrlCell(content, width);
            '/' !in r
            && IsPrefix(r, content + Spaces(BrlPadding))
            && (0 <= width <= BrlPadding ==> |r| == width)
            && (width >= 0 ==> |r| == Min(width, |content| + BrlPadding))
            && (width < 0 ==> |r| == Max(|content| + BrlPadding + width, 0))
  {
    var content := BrlContent(lead, value);
    var padded := content + Spaces(BrlPadding);
    var r := BrlCell(content, width);
    assert r == padded[..|r|];
    forall i | 0 <= i < |r|
      ensures r[i] != '/'
    {
      assert r[i] == padded[i];
      if i < |content| {
        assert padded[i] == content[i];
      } else {
        assert padded[i] == Spaces(BrlPadding)[i - |content|];
      }
    }
  }

  /** A marker lead survives stripping and slash replacement in front of the value. */
  lemma MarkerLeads(lead: string, value: Option<string>)
    requires lead != [] && !IsSpace(lead[0]) && !IsSpace(lead[|lead| - 1]) && '/' !in lead
    ensures IsPrefix(lead, BrlContent(lead, value))
  {
    var s := if value.Some? then Strip(lead + " " + value.value) else lead;
    assert IsPrefix(lead, s) by {
      if value.Some? {
        assert lead + " " + value.value == lead + (" " + value.value);
        StripKeepsPrefix(lead, " " + value.value);
      }
    }
    ReplaceCharKeepsPrefix(lead, s);
  }

  /** Turning slashes into dots leaves a slash-free prefix in place. */
  lemma ReplaceCharKeepsPrefix(lead: string, s: string)
    requires IsPrefix(lead, s) && '/' !in lead
    ensures IsPrefix(lead, ReplaceChar(s, '/', '.'))
  {
    var r := ReplaceChar(s, '/', '.');
    forall i | 0 <= i < |lead|
      ensures r[i] == lead[i]
    {
      assert s[i] == lead[i];
    }
  }

  /** The four markers are three characters long, have no blank at either end and hold no slash. */
  lemma MarkerIsPlain(m: string)
    requires m == "(x)" || m == "( )" || m == "[x]" || m == "[ ]"
    ensures |m| == 3 && !IsSpace(m[0]) && !IsSpace(m[2]) && '/' !in m
  {
    var open := m[0];
    var close := m[2];
    assert (open == '(' && close == ')') || (open == '[' && close == ']');
    assert !IsSpace(open) && !IsSpace(close);
    assert m == [open, m[1], close];
    assert m[1] == 'x' || m[1] == ' ';
  }

  /** On a column at least three cells wide, an available radio button shows "(x)" or "( )" and a check box "[x]" or "[ ]" according to its checked state. */
  lemma BrlCellMarker(role: string, name: string, checked: Option<bool>, unavailable: bool, value: Option<string>, width: int)
    requires width >= 3
    requires role == RadioButtonRole || role == CheckBoxRole
    requires role == RadioButtonRole ==> !unavailable
    ensures var r := BrlCell(BrlContent(BrlLabel(role, name, checked, unavailable), value), width);
            |r| >= 3
            && r[..3] == (if role == RadioButtonRole then (if checked == Some(true) then "(x)" else "( )")
                          else (if checked == Some(true) then "[x]" else "[ ]"))
  {
    var lead := BrlLabel(role, name, checked, unavailable);
    var marker := if role == RadioButtonRole then (if checked == Some(true) then "(x)" else "( )")
                  else (if checked == Some(true) then "[x]" else "[ ]");
    assert lead == marker;
    MarkerIsPlain(marker);
    MarkerLeads(lead, value);
    var padded := BrlContent(lead, value) + Spaces(BrlPadding);
    assert padded[..3] == lead;
    var r := SliceTo(padded, width);
    assert r[..3] == padded[..3];
  }

  /**
   * `getText()`: name and value joined by a blank and stripped, so the
   * joined text with exactly its leading and trailing blanks cut off;
   * None where the missing value makes the concatenation raise.
   */
  function CellText(name: string, value: Option<string>): (r: Option<string>)
    ensures r.Some? <==> value.Some?
    ensures r.Some? && r.value != [] ==> !IsSpace(r.value[0]) && !IsSpace(r.value[|r.value| - 1])
    ensures r.Some? ==> |r.value| <= |name| + 1 + |value.value|
    ensures r.Some? ==>
              var s := name + " " + value.value;
              && (r.value == [] <==> forall i | 0 <= i < |s| :: IsSpace(s[i]))
              && (r.value != [] ==> LeadingBlanks(s) < |s| - TrailingBlanks(s)
                                    && r.value == s[LeadingBlanks(s)..|s| - TrailingBlanks(s)])
  {
    if value.Some? then Some(Strip(name + " " + value.value)) else None
  }

  /**
   * A name and a value with no blank on their outer ends are spelled out
   * exactly as written, joined by one blank.
   */
  lemma CellTextJoins(name: string, value: string)
    requires name != [] && value != [] && !IsSpace(name[0]) && !IsSpace(value[|value| - 1])
    ensures CellText(name, Some(value)) == Some(name + " " + value)
  {
    var s := name + " " + value;
    assert s[0] == name[0] && s[|s| - 1] == value[|value| - 1];
    StripUnchanged(s);
  }

  /** The character index after `nextCharacter` on a text of length `n`. */
  function NextIndex(i: nat, n: int): (r: nat)
    ensures i <= r <= i + 1
    ensures i < n ==> r < n
    ensures r == i <==> i >= n - 1
  {
    if i >= n - 1 then i else i + 1
  }

  /** The character index after `priorCharacter`. */
  function PriorIndex(i: nat): (r: nat)
    ensures r <= i && (i > 0 ==> r == i - 1)
  {
    if i <= 0 then i else i - 1
  }

  /** What is spoken for index `i` of `t`: nothing on an empty text, the character when it is in range, an index error otherwise. */
  function SpokenAt(t: string, i: nat): Spoken {
    if |t| == 0 then Silent else if i < |t| then Char(t[i]) else OutOfRange
  }

  /** `k` successive `nextCharacter` steps. */
  function NextIndexN(i: nat, n: int, k: nat): nat
    decreases k
  {
    if k == 0 then i else NextIndexN(NextIndex(i, n), n, k - 1)
  }

  /** `k` successive `priorCharacter` steps. */
  function PriorIndexN(i: nat, k: nat): nat
    decreases k
  {
    if k == 0 then i else PriorIndexN(PriorIndex(i), k - 1)
  }

  /** Repeated `nextCharacter` advances one character a step and stops at the last character, never moving backwards. */
  lemma {:induction false} NextIndexNClosed(i: nat, n: int, k: nat)
    ensures NextIndexN(i, n, k) == Max(i, Min(i + k, n - 1))
    decreases k
  {
    if k > 0 {
      NextIndexNClosed(NextIndex(i, n), n, k - 1);
    }
  }

  /** Repeated `priorCharacter` goes back one character a step and stops at the first one. */
  lemma {:induction false} PriorIndexNClosed(i: nat, k: nat)
    ensures PriorIndexN(i, k) == Max(i - k, 0)
    decreases k
  {
    if k > 0 {
      PriorIndexNClosed(PriorIndex(i), k - 1);
    }
  }

  /** An index inside the text stays inside it under both moves, so the character spoken is always one of the text. */
  lemma CharacterIndexStaysInText(t: string, i: nat)
    requires i < |t|
    ensures NextIndex(i, |t|) < |t| && SpokenAt(t, NextIndex(i, |t|)) == Char(t[NextIndex(i, |t|)])
    ensures PriorIndex(i) < |t| && SpokenAt(t, PriorIndex(i)) == Char(t[PriorIndex(i)])
    ensures NextIndex(i, |t|) == i <==> i == |t| - 1
    ensures PriorIndex(i) == i <==> i == 0
  {
  }

  /** A table cell: constant content read from the page, plus the character cursor used to spell it. */
  class Cell {
    const colHeader: ColumnHeader
    const name: string
    var value: Option<string>
    const role: string
    const checked: Option<bool>
    const selected: bool
    const unavailable: bool
    const visited: bool
    var curCharacterIndex: nat

    constructor (colHeader: ColumnHeader, name: string, value: Option<string>, role: string,
                 checked: Option<bool>, selected: bool, unavailable: bool, visited: bool)
      ensures this.colHeader == colHeader && this.name == name && this.value == value
      ensures this.role == role && this.checked == checked && this.selected == selected
      ensures this.unavailable == unavailable && this.visited == visited
      ensures curCharacterIndex == 0
    {
      this.colHeader := colHeader;
      this.name := name;
      this.value := value;
      this.role := role;
      this.checked := checked;
      this.selected := selected;
      this.unavailable := unavailable;
      this.visited := visited;
      curCharacterIndex := 0;
    }

    /** `Cell(...)`: a missing name is refused first, then a missing column header. */
    static method Create(colHeader: ColumnHeader?, name: Option<string>, value: Option<string>, role: string,
                         checked: Option<bool>, selected: bool, unavailable: bool, visited: bool)
      returns (r: Result<Cell, CellError>)
      ensures name.None? ==> r == Failure(NameMissing)
      ensures name.Some? && colHeader == null ==> r == Failure(HeaderMissing)
      ensures name.Some? && colHeader != null ==>
                r.Success? && fresh(r.value)
                && r.value.colHeader == colHeader && r.value.name == name.value && r.value.value == value
                && r.value.role == role && r.value.checked == checked && r.value.selected == selected
                && r.value.unavailable == unavailable && r.value.visited == visited
                && r.value.curCharacterIndex == 0
    {
      if name.None? {
        return Failure(NameMissing);
      }
      if colHeader == null {
        return Failure(HeaderMissing);
      }
      var c := new Cell(colHeader, name.value, value, role, checked, selected, unavailable, visited);
      return Success(c);
    }

    /** `brlText()`. */
    function BrlText(): string
      reads this, colHeader
    {
      BrlCell(BrlContent(BrlLabel(role, name, checked, unavailable), value), colHeader.width)
    }

    /** `getText()`: there is a text exactly when the cell has a value. */
    function Text(): (r: Option<string>)
      reads this
      ensures r.Some? <==> value.Some?
    {
      CellText(name, value)
    }

    /** `nextCharacter()`: one character forward unless already on the last one, then speak the character under the cursor. */
    method NextCharacter() returns (r: CharStep)
      modifies this`curCharacterIndex
      ensures Text().None? ==> r == TextMissing && curCharacterIndex == old(curCharacterIndex)
      ensures Text().Some? ==>
                var t := Text().value;
                curCharacterIndex == NextIndex(old(curCharacterIndex), |t|)
                && r == Stepped(old(curCharacterIndex) >= |t| - 1, SpokenAt(t, curCharacterIndex))
    {
      var text := CellText(name, value);
      if text.None? {
        return TextMissing;
      }
      var t := text.value;
      var atEdge := curCharacterIndex >= |t| - 1;
      if !atEdge {
        curCharacterIndex := curCharacterIndex + 1;
      }
      var spoken := Silent;
      if |t| > 0 {
        spoken := if curCharacterIndex < |t| then Char(t[curCharacterIndex]) else OutOfRange;
      }
      return Stepped(atEdge, spoken);
    }

    /** `priorCharacter()`: one character back unless already on the first one, then speak the character under the cursor. */
    method PriorCharacter() returns (r: CharStep)
      modifies this`curCharacterIndex
      ensures Text().None? ==> r == TextMissing && curCharacterIndex == old(curCharacterIndex)
      ensures Text().Some? ==>
                var t := Text().value;
                curCharacterIndex == PriorIndex(old(curCharacterIndex))
                && r == Stepped(old(curCharacterIndex) <= 0, SpokenAt(t, curCharacterIndex))
    {
      var text := CellText(name, value);
      if text.None? {
        return TextMissing;
      }
      var t := text.value;
      var atEdge := curCharacterIndex <= 0;
      if !atEdge {
        curCharacterIndex := curCharacterIndex - 1;
      }
      var spoken := Silent;
      if |t| > 0 {
        spoken := if curCharacterIndex < |t| then Char(t[curCharacterIndex]) else OutOfRange;
      }
      return Stepped(atEdge, spoken);
    }
  }

  /** A table row: its cells, addressed by 1-based column number. */
  datatype Row = Row(cells: seq<Cell>) {
    /** `getCell(numCol)`: the cell of column `numCol`, or None outside 1..number of cells. */
    function GetCell(numCol: int): (r: Option<Cell>)
      ensures r.None? <==> numCol < 1 || numCol > |cells|
      ensures r.Some? ==> r.value in cells && r.value == cells[numCol - 1]
    {
      if numCol < 1 || numCol > |cells| then None else Some(cells[numCol - 1])
    }
  }

  /** Every cell of a row is found under exactly one column number, its position plus one. */
  lemma GetCellEnumerates(row: Row)
    ensures forall k :: 0 <= k < |row.cells| ==> row.GetCell(k + 1) == Some(row.cells[k])
    ensures forall c :: c in row.cells <==> exists numCol :: row.GetCell(numCol) == Some(c)
  {
    forall c | c in row.cells
      ensures exists numCol :: row.GetCell(numCol) == Some(c)
    {
      var k :| 0 <= k < |row.cells| && row.cells[k] == c;
      assert row.GetCell(k + 1) == Some(c);
    }
  }

  // ---------------------------------------------------------------------
  // Column cursor

  /** `rightCell()`: one column right unless already on the last one. */
  function StepRight(col: int, count: int): (r: int)
    ensures col <= count ==> r <= count
    ensures r == col <==> col >= count
  {
    if col >= count then col else col + 1
  }

  /** `leftCell()`: one column left unless already on the first one. */
  function StepLeft(col: int): (r: int)
    ensures col >= 1 ==> 1 <= r <= col
    ensures r == col <==> col <= 1
  {
    if col <= 1 then col else col - 1
  }

  function StepRightN(col: int, count: int, k: nat): int
    decreases k
  {
    if k == 0 then col else StepRightN(StepRight(col, count), count, k - 1)
  }

  /** Both moves keep the column inside 1..count, and each undoes the other away from the edges. */
  lemma StepsInRange(col: int, count: int)
    requires 1 <= col <= count
    ensures 1 <= StepRight(col, count) <= count && 1 <= StepLeft(col) <= count
    ensures col < count ==> StepLeft(StepRight(col, count)) == col
    ensures col > 1 ==> StepRight(StepLeft(col), count) == col
    ensures StepRight(col, count) == col <==> col == count
    ensures StepLeft(col) == col <==> col == 1
  {
  }

  /** Repeated `rightCell` stops on the last column. */
  lemma {:induction false} StepRightNClosed(col: int, count: int, k: nat)
    ensures StepRightN(col, count, k) == Max(col, Min(col + k, count))
    decreases k
  {
    if k > 0 {
      StepRightNClosed(StepRight(col, count), count, k - 1);
    }
  }

  // ---------------------------------------------------------------------
  // Braille routing

  /** The braille span `start <= n < end` that column `col` (0-based) occupies on the display. */
  datatype BrlPosition = BrlPosition(start: int, end: int, col: int)

  predicate Covers(p: BrlPosition, n: int) {
    p.start <= n < p.end
  }

  /** The column (0-based) of the first span that covers braille cell `n`. */
  function RoutedColumn(ps: seq<BrlPosition>, n: int): Option<int> {
    if ps == [] then None
    else if Covers(ps[0], n) then Some(ps[0].col)
    else RoutedColumn(ps[1..], n)
  }

  /** Routing finds a column exactly when some span covers the cell, and then it is the column of the first such span. */
  lemma {:induction false} RoutedColumnFirstMatch(ps: seq<BrlPosition>, n: int)
    ensures RoutedColumn(ps, n).None? <==> forall i :: 0 <= i < |ps| ==> !Covers(ps[i], n)
    ensures RoutedColumn(ps, n).Some? ==>
              exists i :: 0 <= i < |ps| && Covers(ps[i], n) && ps[i].col == RoutedColumn(ps, n).value
                          && forall j :: 0 <= j < i ==> !Covers(ps[j], n)
  {
    if ps != [] && !Covers(ps[0], n) {
      RoutedColumnFirstMatch(ps[1..], n);
      if RoutedColumn(ps, n).Some? {
        var i :| 0 <= i < |ps[1..]| && Covers(ps[1..][i], n) && ps[1..][i].col == RoutedColumn(ps, n).value
                 && forall j :: 0 <= j < i ==> !Covers(ps[1..][j], n);
        assert ps[i + 1] == ps[1..][i];
        assert forall j :: 1 <= j < i + 1 ==> ps[j] == ps[1..][j - 1];
      }
      assert forall i :: 1 <= i < |ps| ==> ps[i] == ps[1..][i - 1];
    }
  }

  datatype RoutingOutcome = Activated | Routed(col: int) | Beeped

  // ---------------------------------------------------------------------
  // Table configuration

  datatype ConfigValue = IntValue(i: int) | StrValue(s: string)

  /** A configuration entry: a scalar or a section of named entries. */
  datatype Entry = Value(v: ConfigValue) | Section(entries: map<string, Entry>)

  type Config = map<string, Entry>

  /** `getTableConfig(key)`: `config[page][id][key]`; if any step of that fails, `config[page][key]`; otherwise None. */
  function Lookup(cfg: Config, page: string, id: string, key: string): (r: Option<Entry>)
    ensures r.Some? ==> page in cfg && cfg[page].Section?
    ensures page in cfg && cfg[page].Section? && key in cfg[page].entries ==> r.Some?
  {
    if page in cfg && cfg[page].Section? && id in cfg[page].entries
       && cfg[page].entries[id].Section? && key in cfg[page].entries[id].entries
    then Some(cfg[page].entries[id].entries[key])
    else if page in cfg && cfg[page].Section? && key in cfg[page].entries
    then Some(cfg[page].entries[key])
    else None
  }

  /** `setTableConfig(key, value)`: store under `config[page][id][key]`, or `config[page][key]` when the identifier is empty, creating the sections on the way. None is the type error raised when a scalar stands where a section is needed. */
  function Store(cfg: Config, page: string, id: string, key: string, v: ConfigValue): (r: Option<Config>)
    ensures r.None? <==>
              (page in cfg && !cfg[page].Section?)
              || (id != "" && page in cfg && cfg[page].Section? && id in cfg[page].entries
                  && !cfg[page].entries[id].Section?)
    ensures r.Some? ==> r.value.Keys == cfg.Keys + {page} && r.value[page].Section?
    ensures r.Some? ==> forall p :: p in cfg && p != page ==> r.value[p] == cfg[p]
  {
    var pageSection := if page in cfg then cfg[page] else Section(map[]);
    if !pageSection.Section? then None
    else if id != "" then
      var idSection := if id in pageSection.entries then pageSection.entries[id] else Section(map[]);
      if !idSection.Section? then None
      else Some(cfg[page := Section(pageSection.entries[id := Section(idSection.entries[key := Value(v)])])])
    else Some(cfg[page := Section(pageSection.entries[key := Value(v)])])
  }

  /** With an empty identifier a lookup first tries a section named "" — one only a hand-edited file can hold. */
  predicate ShadowedByEmptyId(cfg: Config, page: string, key: string) {
    page in cfg && cfg[page].Section? && "" in cfg[page].entries
    && cfg[page].entries[""].Section? && key in cfg[page].entries[""].entries
  }

  /** Reading back what was just stored gives the stored value. */
  lemma StoreThenLookup(cfg: Config, page: string, id: string, key: string, v: ConfigValue)
    requires Store(cfg, page, id, key, v).Some?
    requires id == "" && key != "" ==> !ShadowedByEmptyId(cfg, page, key)
    ensures Lookup(Store(cfg, page, id, key, v).value, page, id, key) == Some(Value(v))
  {
  }

  /** Storing one key leaves every other key of the same table as it was. */
  lemma StoreKeepsOtherKeys(cfg: Config, page: string, id: string, key: string, v: ConfigValue, other: string)
    requires Store(cfg, page, id, key, v).Some?
    requires other != key && other != id && key != id
    ensures Lookup(Store(cfg, page, id, key, v).value, page, id, other) == Lookup(cfg, page, id, other)
  {
  }

  /** Storing on one page leaves every lookup on another page as it was. */
  lemma StoreKeepsOtherPages(cfg: Config, page: string, id: string, key: string, v: ConfigValue,
                             page2: string, id2: string, key2: string)
    requires Store(cfg, page, id, key, v).Some?
    requires page2 != page
    ensures Lookup(Store(cfg, page, id, key, v).value, page2, id2, key2) == Lookup(cfg, page2, id2, key2)
  {
  }

  /** The titles of a row's column headers, in column order. */
  function Titles(cells: seq<Cell>): (r: seq<string>)
    reads set i | 0 <= i < |cells| :: cells[i].colHeader
    ensures |r| == |cells| && forall i :: 0 <= i < |cells| ==> r[i] == cells[i].colHeader.title
  {
    if cells == [] then [] else [cells[0].colHeader.title] + Titles(cells[1..])
  }

  datatype WidthOutcome = NoCell | AtMinimum | Resized(width: int, stored: bool)

  /** The table widget: the row under the cursor, the column cursor, the braille spans of the last rendering and the configuration. */
  class GenericTable {
    var row: Row            // `getRow()`: the row the cursor is on
    var headerRow: Row      // `_row`: the row whose header titles name the table
    var colCount: int
    var curCol: int
    var brlPositions: seq<BrlPosition>
    var pageTitle: string
    var identifier: string
    var tableConfig: Config

    constructor (pageTitle: string, row: Row, headerRow: Row, colCount: int, tableConfig: Config)
      ensures this.pageTitle == pageTitle && this.row == row && this.headerRow == headerRow
      ensures this.colCount == colCount && this.tableConfig == tableConfig
      ensures curCol == 1 && identifier == "" && brlPositions == []
    {
      this.pageTitle := pageTitle;
      this.row := row;
      this.headerRow := headerRow;
      this.colCount := colCount;
      this.tableConfig := tableConfig;
      curCol := 1;
      identifier := "";
      brlPositions := [];
    }

    /** The column cursor is on an existing column. */
    predicate CursorInRange()
      reads this
    {
      1 <= curCol <= colCount
    }

    function HeaderSet(): set<ColumnHeader>
      reads this
    {
      set i | 0 <= i < |headerRow.cells| :: headerRow.cells[i].colHeader
    }

    /** `getTableIdentifier()`: the cached identifier, or the header titles joined with "_". */
    function TableId(): (r: string)
      reads this, HeaderSet()
      ensures identifier != "" ==> r == identifier
    {
      if identifier == "" then Join("_", Titles(headerRow.cells)) else identifier
    }

    /** `getTableConfig(key)`. */
    function GetTableConfig(key: string): (r: Option<Entry>)
      reads this, HeaderSet()
      ensures r.Some? ==> pageTitle in tableConfig && tableConfig[pageTitle].Section?
      ensures pageTitle !in tableConfig ==> r.None?
    {
      Lookup(tableConfig, pageTitle, TableId(), key)
    }

    /** `setTableConfig(key, value)`; false when the configuration raised a type error, leaving it unchanged. */
    method SetTableConfig(key: string, v: ConfigValue) returns (ok: bool)
      modifies this`tableConfig, this`identifier
      ensures identifier == old(TableId())
      ensures var stored := Store(old(tableConfig), pageTitle, identifier, key, v);
              ok == stored.Some? && tableConfig == (if ok then stored.value else old(tableConfig))
      ensures ok && (identifier == "" && key != "" ==> !ShadowedByEmptyId(old(tableConfig), pageTitle, key)) ==>
                Lookup(tableConfig, pageTitle, identifier, key) == Some(Value(v))
    {
      identifier := TableId();
      var stored := Store(tableConfig, pageTitle, identifier, key, v);
      if stored.Some? {
        if !(identifier == "" && key != "" && ShadowedByEmptyId(tableConfig, pageTitle, key)) {
          StoreThenLookup(tableConfig, pageTitle, identifier, key, v);
        }
        tableConfig := stored.value;
        return true;
      }
      return false;
    }

    /** `rightCell()`. */
    method RightCell()
      modifies this`curCol
      ensures curCol == StepRight(old(curCol), colCount)
      ensures old(CursorInRange()) ==> CursorInRange()
    {
      if curCol < colCount {
        curCol := curCol + 1;
      }
    }

    /** `leftCell()`. */
    method LeftCell()
      modifies this`curCol
      ensures curCol == StepLeft(old(curCol))
      ensures old(CursorInRange()) ==> CursorInRange()
    {
      if curCol > 1 {
        curCol := curCol - 1;
      }
    }

    /** `firstCell()`. */
    method FirstCell()
      modifies this`curCol
      ensures curCol == 1
      ensures colCount >= 1 ==> CursorInRange()
    {
      curCol := 1;
    }

    /** `lastCell()`. */
    method LastCell()
      modifies this`curCol
      ensures curCol == colCount
      ensures colCount >= 1 ==> CursorInRange()
    {
      curCol := colCount;
    }

    /** The column headers of the cells of the row under the cursor. */
    function RowHeaders(): set<ColumnHeader>
      reads this
    {
      set i | 0 <= i < |row.cells| :: row.cells[i].colHeader
    }

    /** `increaseColWidth()`: widen the current cell's column by one and remember the width for this table. */
    method IncreaseColWidth() returns (r: WidthOutcome)
      modifies this`tableConfig, this`identifier, RowHeaders()`width
      ensures old(row.GetCell(curCol)).None? ==>
                r == NoCell && tableConfig == old(tableConfig) && identifier == old(identifier)
                && forall h' | h' in old(RowHeaders()) :: h'.width == old(h'.width)
      ensures old(row.GetCell(curCol)).Some? ==>
                forall h' | h' in old(RowHeaders()) && h' != old(row.GetCell(curCol)).value.colHeader :: h'.width == old(h'.width)
      ensures old(row.GetCell(curCol)).Some? ==>
                var h := old(row.GetCell(curCol)).value.colHeader;
                h.width == old(h.width) + 1 && r.Resized? && r.width == h.width
                && identifier == old(TableId())
                && var stored := Store(old(tableConfig), pageTitle, identifier, "width_" + h.id, IntValue(h.width));
                   r.stored == stored.Some?
                   && tableConfig == (if r.stored then stored.value else old(tableConfig))
    {
      var cell := row.GetCell(curCol);
      if cell.None? {
        return NoCell;
      }
      var h := cell.value.colHeader;
      ghost var titles := Titles(headerRow.cells);
      h.width := h.width + 1;
      assert Titles(headerRow.cells) == titles;
      var ok := SetTableConfig("width_" + h.id, IntValue(h.width));
      return Resized(h.width, ok);
    }

    /** `decreaseColWidth()`: narrow the current cell's column by one, never below one, and remember the width for this table. */
    method DecreaseColWidth() returns (r: WidthOutcome)
      modifies this`tableConfig, this`identifier, RowHeaders()`width
      ensures old(row.GetCell(curCol)).None? ==>
                r == NoCell && tableConfig == old(tableConfig) && identifier == old(identifier)
                && forall h' | h' in old(RowHeaders()) :: h'.width == old(h'.width)
      ensures old(row.GetCell(curCol)).Some? ==>
                forall h' | h' in old(RowHeaders()) && h' != old(row.GetCell(curCol)).value.colHeader :: h'.width == old(h'.width)
      ensures old(row.GetCell(curCol)).Some? && old(row.GetCell(curCol).value.colHeader.width) <= 1 ==>
                r == AtMinimum && tableConfig == old(tableConfig) && identifier == old(identifier)
                && old(row.GetCell(curCol)).value.colHeader.width == old(row.GetCell(curCol).value.colHeader.width)
      ensures old(row.GetCell(curCol)).Some? && old(row.GetCell(curCol).value.colHeader.width) > 1 ==>
                var h := old(row.GetCell(curCol)).value.colHeader;
                h.width == old(h.width) - 1 && h.width >= 1 && r.Resized? && r.width == h.width
                && identifier == old(TableId())
                && var stored := Store(old(tableConfig), pageTitle, identifier, "width_" + h.id, IntValue(h.width));
                   r.stored == stored.Some?
                   && tableConfig == (if r.stored then stored.value else old(tableConfig))
    {
      var cell := row.GetCell(curCol);
      if cell.None? {
        return NoCell;
      }
      var h := cell.value.colHeader;
      if h.width <= 1 {
        return AtMinimum;
      }
      ghost var titles := Titles(headerRow.cells);
      h.width := h.width - 1;
      assert Titles(headerRow.cells) == titles;
      var ok := SetTableConfig("width_" + h.id, IntValue(h.width));
      return Resized(h.width, ok);
    }

    /** `brailleRouting()`: a repeated press activates the cell; otherwise the cursor moves to the column whose span holds braille cell `n`, or the widget beeps. */
    method BrailleRouting(n: int, repeatCount: nat) returns (r: RoutingOutcome)
      modifies this`curCol
      ensures repeatCount > 0 ==> r == Activated && curCol == old(curCol)
      ensures repeatCount == 0 && RoutedColumn(brlPositions, n).Some? ==>
                r == Routed(RoutedColumn(brlPositions, n).value + 1) && curCol == r.col
      ensures repeatCount == 0 && RoutedColumn(brlPositions, n).None? ==>
                r == Beeped && curCol == old(curCol)
    {
      if repeatCount > 0 {
        return Activated;
      }
      var i := 0;
      while i < |brlPositions|
        invariant 0 <= i <= |brlPositions|
        invariant RoutedColumn(brlPositions, n) == RoutedColumn(brlPositions[i..], n)
        invariant curCol == old(curCol)
      {
        var p := brlPositions[i];
        assert brlPositions[i..][1..] == brlPositions[i + 1..];
        if p.start <= n < p.end {
          curCol := p.col + 1;
          return Routed(curCol);
        }
        i := i + 1;
      }
      return Beeped;
    }
  }
}
