/** The interactive picker of internal/ui/ui.go: themes, the frame `render` draws, and the
    `Select` loop that moves a cursor over the candidate rows as bytes arrive. The input stream
    is a byte sequence with what the reader reports once it runs out (end of file or a read
    error); the output stream is the list of frames and messages written, which `Transcript`
    turns into text. */
module Ui {
  import opened Core
  import opened Text

  newtype byte = b: int | 0 <= b < 256

  // ---------------------------------------------------------------------------------------
  // Themes

  /** `Theme`: the ANSI sequences applied to the parts of a frame. */
  datatype Theme = Theme(
    actionLabel: string,
    actionDescription: string,
    branch: string,
    selected: string,
    selectedBadge: string,
    badge: string,
    help: string)

  /** `Theme{}`. */
  const ZeroTheme := Theme("", "", "", "", "", "", "")

  const Nord := Theme(
    "\U{1B}[1;38;5;116m", "\U{1B}[38;5;255m", "\U{1B}[38;5;249m", "\U{1B}[1;38;5;255;48;5;67m",
    "\U{1B}[1;38;5;108;48;5;67m", "\U{1B}[1;38;5;108m", "\U{1B}[38;5;244m")
  const Catppuccin := Theme(
    "\U{1B}[1;38;5;111m", "\U{1B}[38;5;189m", "\U{1B}[38;5;188m", "\U{1B}[1;38;5;234;48;5;111m",
    "\U{1B}[1;38;5;151;48;5;111m", "\U{1B}[1;38;5;151m", "\U{1B}[38;5;246m")
  const Classic := Theme(
    "\U{1B}[1;36m", "\U{1B}[37m", "\U{1B}[37m", "\U{1B}[1;97;44m",
    "\U{1B}[1;32;44m", "\U{1B}[1;32m", "\U{1B}[90m")
  const Solarized := Theme(
    "\U{1B}[1;38;5;33m", "\U{1B}[38;5;230m", "\U{1B}[38;5;244m", "\U{1B}[1;38;5;230;48;5;23m",
    "\U{1B}[1;38;5;109;48;5;23m", "\U{1B}[1;38;5;109m", "\U{1B}[38;5;243m")
  const Gruvbox := Theme(
    "\U{1B}[1;38;5;208m", "\U{1B}[38;5;223m", "\U{1B}[38;5;250m", "\U{1B}[1;38;5;235;48;5;172m",
    "\U{1B}[1;38;5;114;48;5;172m", "\U{1B}[1;38;5;114m", "\U{1B}[38;5;244m")
  const OneDark := Theme(
    "\U{1B}[1;38;5;75m", "\U{1B}[38;5;253m", "\U{1B}[38;5;250m", "\U{1B}[1;38;5;233;48;5;68m",
    "\U{1B}[1;38;5;114;48;5;68m", "\U{1B}[1;38;5;114m", "\U{1B}[38;5;246m")

  const DefaultTheme := Catppuccin

  /** `themeNames`, in the order `AvailableThemeNames` lists them. */
  const ThemeNames: seq<string> := ["catppuccin", "nord", "classic", "solarized", "gruvbox", "onedark"]

  /** Every spelling `ThemeByName` accepts once trimmed and lower-cased. */
  const ThemeKeys: set<string> := {
    "", "nord", "catppuccin", "catppuccin-mocha", "mocha", "classic", "ansi",
    "solarized", "solarized-dark", "gruvbox", "onedark", "one-dark"}

  /** The theme a normalised key selects. */
  function ThemeOfKey(key: string): Option<Theme>
  {
    if key == "" then Some(DefaultTheme)
    else if key == "nord" then Some(Nord)
    else if key == "catppuccin" || key == "catppuccin-mocha" || key == "mocha" then Some(Catppuccin)
    else if key == "classic" || key == "ansi" then Some(Classic)
    else if key == "solarized" || key == "solarized-dark" then Some(Solarized)
    else if key == "gruvbox" then Some(Gruvbox)
    else if key == "onedark" || key == "one-dark" then Some(OneDark)
    else None
  }

  /** `ThemeByName`: `None` stands for `(Theme{}, false)`. */
  function ThemeByName(name: string): (r: Option<Theme>)
    ensures Normalize(name) == "" ==> r == Some(DefaultTheme)
  {
    ThemeOfKey(Normalize(name))
  }

  /** `ThemeByName` accepts exactly the listed spellings, after trimming and lower-casing. */
  lemma ThemeByNameAccepts(name: string)
    ensures ThemeByName(name).Some? <==> Normalize(name) in ThemeKeys
  {
    KeysAccepted(Normalize(name));
  }

  /** The keys `ThemeOfKey` knows are exactly the listed spellings. */
  lemma KeysAccepted(key: string)
    ensures ThemeOfKey(key).Some? <==> key in ThemeKeys
  {
  }

  /** Surrounding white space and letter case do not matter to `ThemeByName`. */
  lemma ThemeByNameNormalized(name: string)
    ensures ThemeByName(Normalize(name)) == ThemeByName(name)
  {
    NormalizeIdempotent(name);
  }

  /** A lower-case word without white space is its own normal form. */
  lemma {:induction false} NormalizeFixes(s: string)
    requires forall k :: 0 <= k < |s| ==> 'a' <= s[k] <= 'z' || s[k] == '-'
    ensures Normalize(s) == s
  {
    assert s == [] || (s[0] !in Whitespace && s[|s| - 1] !in Whitespace);
    TrimOfTrimmed(s, Whitespace);
    assert ToLower(s) == s;
  }

  /** The palettes the canonical names stand for, in the same order. */
  const CanonicalThemes: seq<Theme> := [Catppuccin, Nord, Classic, Solarized, Gruvbox, OneDark]

  /** The canonical names are written in lower case without white space. */
  lemma CanonicalWord(name: string)
    requires name == "catppuccin" || name == "nord" || name == "classic"
          || name == "solarized" || name == "gruvbox" || name == "onedark"
    ensures forall k :: 0 <= k < |name| ==> 'a' <= name[k] <= 'z' || name[k] == '-'
  {
  }

  /** Each canonical name is its own normal form ... */
  lemma CanonicalNormal(i: int)
    requires 0 <= i < |ThemeNames|
    ensures Normalize(ThemeNames[i]) == ThemeNames[i]
  {
    var name := ThemeNames[i];
    CanonicalWord(name);
    NormalizeFixes(name);
  }

  /** ... and a key for its own palette ... */
  lemma CanonicalKey(i: int)
    requires 0 <= i < |ThemeNames|
    ensures ThemeOfKey(ThemeNames[i]) == Some(CanonicalThemes[i])
  {
  }

  /** ... so `ThemeByName` resolves it to that palette. */
  lemma CanonicalName(name: string, i: int)
    requires 0 <= i < |ThemeNames| && name == ThemeNames[i]
    ensures ThemeByName(name) == Some(CanonicalThemes[i])
  {
    CanonicalNormal(i);
    CanonicalKey(i);
  }

  /** `AvailableThemeNames`: a fresh copy of the six canonical names, each of which
      `ThemeByName` resolves. */
  function AvailableThemeNames(): (r: seq<string>)
    ensures |r| == 6
    ensures forall i :: 0 <= i < |r| ==> ThemeByName(r[i]).Some?
  {
    var r := ThemeNames;
    forall i | 0 <= i < |r|
      ensures ThemeByName(r[i]).Some?
    {
      CanonicalName(r[i], i);
    }
    r
  }

  /** The six palettes are pairwise different. */
  lemma CanonicalPalettesDiffer(i: int, j: int)
    requires 0 <= i < j < |CanonicalThemes|
    ensures CanonicalThemes[i] != CanonicalThemes[j]
  {
    var a, b := CanonicalThemes[i], CanonicalThemes[j];
    assert a.actionLabel != b.actionLabel;
  }

  /** The six canonical names stand for six different palettes. */
  lemma CanonicalThemesDiffer(a: string, b: string)
    requires a in ThemeNames && b in ThemeNames && a != b
    ensures ThemeByName(a) != ThemeByName(b)
  {
    var i :| 0 <= i < |ThemeNames| && ThemeNames[i] == a;
    var j :| 0 <= j < |ThemeNames| && ThemeNames[j] == b;
    CanonicalName(a, i);
    CanonicalName(b, j);
    if i < j {
      CanonicalPalettesDiffer(i, j);
    } else {
      CanonicalPalettesDiffer(j, i);
    }
  }

  /** `render` draws with the default palette when the UI holds the zero theme. */
  function EffectiveTheme(t: Theme): Theme
  {
    if t == ZeroTheme then DefaultTheme else t
  }

  // ---------------------------------------------------------------------------------------
  // The UI value

  /** `ActionDetails`. */
  datatype ActionDetails = ActionDetails(name: string, description: string, enterLabel: string)

  /** `Branch`: a candidate row. */
  datatype Branch = Branch(name: string, current: bool)

  /** `Result` of the selection loop. */
  datatype Selection = Selection(branch: string, quit: bool, alreadyOn: bool)

  const Quit := Selection("", true, false)

  /** The input stream: the bytes it delivers, then end of file (`None`) or the error a read
      fails with (`Some(message)`), again on every further read. */
  datatype Input = Input(data: seq<byte>, end: Option<string>)

  /** A `*UI`. `input == None` and `hasOut == false` stand for nil streams; `rawError` is what
      putting a terminal input into raw mode fails with, if it does. */
  datatype UI = UI(input: Option<Input>, hasOut: bool, action: ActionDetails, theme: Theme, rawError: Option<string>)

  /** `NewWithTheme`: the zero theme is replaced by the default one. */
  function NewWithTheme(input: Option<Input>, hasOut: bool, action: ActionDetails, theme: Theme, rawError: Option<string>): (u: UI)
    ensures u.theme != ZeroTheme
    ensures theme != ZeroTheme ==> u.theme == theme
    ensures u.input == input && u.hasOut == hasOut && u.action == action && u.rawError == rawError
  {
    UI(input, hasOut, action, if theme == ZeroTheme then DefaultTheme else theme, rawError)
  }

  // ---------------------------------------------------------------------------------------
  // Frames

  const ClearScreen := "\U{1B}[2J\U{1B}[H"
  const LineBreak := "\r\n"
  const Reset := "\U{1B}[0m"
  const CurrentBadge := "(current branch)"

  /** The action header: its name and description when not blank, then an empty line. */
  function HeaderLines(action: ActionDetails, t: Theme): (r: seq<string>)
    ensures |r| <= 3
    ensures r == [] <==> TrimSpace(action.name) == [] && TrimSpace(action.description) == []
  {
    var name := TrimSpace(action.name);
    var description := TrimSpace(action.description);
    (if name != [] then [t.actionLabel + "Action: " + name + Reset] else [])
    + (if description != [] then [t.actionDescription + description + Reset] else [])
    + (if name != [] || description != [] then [""] else [])
  }

  /** One candidate row; the cursor row is highlighted and marked with "> ". */
  function RowLine(t: Theme, b: Branch, selected: bool): string
  {
    if selected then
      t.selected + "> " + b.name + (if b.current then " " + t.selectedBadge + CurrentBadge else "") + Reset
    else
      "  " + t.branch + b.name + Reset + (if b.current then " " + t.badge + CurrentBadge + Reset else "")
  }

  /** The help line; a blank enter label reads "select". */
  function HelpLine(t: Theme, enterLabel: string): string
  {
    var word := TrimSpace(enterLabel);
    t.help + "j/k or ↑/↓ to move, Enter to " + (if word == [] then "select" else word) + ", q to exit" + Reset
  }

  /** The candidate rows, in order, the one at `cursor` selected. */
  function Rows(t: Theme, bs: seq<Branch>, cursor: int): (r: seq<string>)
    ensures |r| == |bs|
    ensures forall i :: 0 <= i < |bs| ==> r[i] == RowLine(t, bs[i], i == cursor)
  {
    seq(|bs|, i requires 0 <= i < |bs| => RowLine(t, bs[i], i == cursor))
  }

  /** The lines of one frame. */
  function FrameLines(action: ActionDetails, t: Theme, bs: seq<Branch>, cursor: int): seq<string>
  {
    HeaderLines(action, t) + [t.branch + "Select a branch:" + Reset] + Rows(t, bs, cursor) + [""] + [HelpLine(t, action.enterLabel)]
  }

  /** Lines written one after the other, each ended by "\r\n". */
  function Lines(ls: seq<string>): string
  {
    if ls == [] then [] else ls[0] + LineBreak + Lines(ls[1..])
  }

  /** `render(branches, cursor)`: what one call writes. */
  function Frame(u: UI, bs: seq<Branch>, cursor: int): string
  {
    ClearScreen + Lines(FrameLines(u.action, EffectiveTheme(u.theme), bs, cursor))
  }

  /** A frame clears the screen, then holds the header, the title, exactly one row per
      candidate in order, an empty line and the help line. */
  lemma FrameShape(u: UI, bs: seq<Branch>, cursor: int)
    ensures HasPrefix(Frame(u, bs, cursor), ClearScreen)
    ensures var t := EffectiveTheme(u.theme);
      var ls := FrameLines(u.action, t, bs, cursor);
      var h := |HeaderLines(u.action, t)|;
      && |ls| == h + |bs| + 3
      && ls[h + 1..h + 1 + |bs|] == Rows(t, bs, cursor)
      && ls[|ls| - 1] == HelpLine(t, u.action.enterLabel)
  {
    var f := Frame(u, bs, cursor);
    assert f[..|ClearScreen|] == ClearScreen;
    var t := EffectiveTheme(u.theme);
    var hs := HeaderLines(u.action, t);
    var rows := Rows(t, bs, cursor);
    var ls := FrameLines(u.action, t, bs, cursor);
    assert ls == (hs + [t.branch + "Select a branch:" + Reset]) + rows + ([""] + [HelpLine(t, u.action.enterLabel)]);
  }

  /** `s` ends with `suffix`. */
  predicate EndsWith(s: string, suffix: string)
  {
    |suffix| <= |s| && s[|s| - |suffix|..] == suffix
  }

  /** Only the cursor row is marked: it starts with the highlight and "> ", every other row
      with two spaces. */
  lemma RowMarks(t: Theme, b: Branch, selected: bool)
    ensures selected ==> HasPrefix(RowLine(t, b, selected), t.selected + "> ")
    ensures !selected ==> HasPrefix(RowLine(t, b, selected), "  ")
  {
    var row := RowLine(t, b, selected);
    if selected {
      assert row[..|t.selected + "> "|] == t.selected + "> ";
    } else {
      assert row[..2] == "  ";
    }
  }

  /** A current branch's row ends with the current-branch badge; any other row ends with the
      branch name. */
  lemma RowBadge(t: Theme, b: Branch, selected: bool)
    ensures b.current ==> EndsWith(RowLine(t, b, selected), CurrentBadge + Reset)
    ensures !b.current ==> EndsWith(RowLine(t, b, selected), b.name + Reset)
  {
    var row := RowLine(t, b, selected);
    var tail := if b.current then CurrentBadge + Reset else b.name + Reset;
    var head: string;
    if b.current && selected {
      head := t.selected + "> " + b.name + " " + t.selectedBadge;
    } else if b.current {
      head := "  " + t.branch + b.name + Reset + " " + t.badge;
    } else if selected {
      head := t.selected + "> ";
    } else {
      head := "  " + t.branch;
    }
    assert row == head + tail;
    assert row[|row| - |tail|..] == tail;
  }

  /** The help line names the enter action, or "select" when there is none. */
  lemma HelpLineLabel(t: Theme, enterLabel: string)
    ensures TrimSpace(enterLabel) == [] ==> HelpLine(t, enterLabel) == HelpLine(t, "select")
  {
    if TrimSpace(enterLabel) == [] {
      NormalizeFixes("select");
    }
  }

  // ---------------------------------------------------------------------------------------
  // The selection loop

  /** What `ReadByte` returns at a position of the input. */
  datatype Read = Got(b: byte) | Eof | Failed(message: string)

  function ReadAt(input: Input, pos: nat): Read
  {
    if pos < |input.data| then Got(input.data[pos])
    else match input.end
         case None => Eof
         case Some(m) => Failed(m)
  }

  /** Something `Select` writes: a frame drawn at a cursor, or a message. */
  datatype Event = Rendered(cursor: int) | Printed(text: string)

  /** The text of all the writes. */
  function Transcript(u: UI, bs: seq<Branch>, events: seq<Event>): string
  {
    if events == [] then []
    else
      (match events[0]
       case Rendered(c) => Frame(u, bs, c)
       case Printed(text) => text)
      + Transcript(u, bs, events[1..])
  }

  /** How `Select` ends, and what it wrote. */
  datatype Session = Session(result: Result<Selection>, events: seq<Event>)

  function Then(events: seq<Event>, s: Session): Session
  {
    Session(s.result, events + s.events)
  }

  lemma ThenThen(a: seq<Event>, b: seq<Event>, s: Session)
    ensures Then(a, Then(b, s)) == Then(a + b, s)
  {
    assert a + (b + s.events) == (a + b) + s.events;
  }

  const CtrlC: byte := 0x03
  const CtrlD: byte := 0x04
  const CtrlZ: byte := 0x1a
  const Esc: byte := 0x1b
  const CR: byte := 0x0d
  const LF: byte := 0x0a
  const KeyJ: byte := 0x6a
  const KeyK: byte := 0x6b
  const KeyQ: byte := 0x71
  const KeyUpperQ: byte := 0x51
  const Bracket: byte := 0x5b
  const ArrowUp: byte := 0x41
  const ArrowDown: byte := 0x42

  /** The bytes that end the loop with `Quit`. */
  predicate IsQuitKey(b: byte)
  {
    b == CtrlC || b == CtrlD || b == CtrlZ || b == KeyQ || b == KeyUpperQ
  }

  /** The cursor is on a row, or at 0 over an empty list. */
  predicate ValidCursor(bs: seq<Branch>, cursor: int)
  {
    0 <= cursor && (cursor < |bs| || cursor == 0)
  }

  function AlreadyOnLine(name: string): string
  {
    "already on '" + name + "'" + LineBreak
  }

  /** Where `handleEscape` leaves the reader and the cursor, what it drew, and its error. */
  datatype Escaped = Escaped(pos: nat, cursor: int, events: seq<Event>, err: Option<string>)

  /** `handleEscape`, entered just after an escape byte at `pos - 1`. */
  function Escape(bs: seq<Branch>, input: Input, pos: nat, cursor: int): (r: Escaped)
    requires pos <= |input.data| && ValidCursor(bs, cursor)
    ensures pos <= r.pos <= |input.data| && ValidCursor(bs, r.cursor)
    ensures r.events == [] ==> r.cursor == cursor
    ensures r.events != [] ==> r.events == [Rendered(r.cursor)] && (r.cursor == cursor - 1 || r.cursor == cursor + 1)
  {
    match ReadAt(input, pos)
    case Eof => Escaped(pos, cursor, [], None)
    case Failed(m) => Escaped(pos, cursor, [], Some(m))
    case Got(next) =>
      if next != Bracket then Escaped(pos + 1, cursor, [], None)
      else
        match ReadAt(input, pos + 1)
        case Eof => Escaped(pos + 1, cursor, [], None)
        case Failed(m) => Escaped(pos + 1, cursor, [], Some(m))
        case Got(dir) =>
          if dir == ArrowUp then
            if cursor > 0 then Escaped(pos + 2, cursor - 1, [Rendered(cursor - 1)], None)
            else Escaped(pos + 2, cursor, [], None)
          else if dir == ArrowDown then
            if |bs| - 1 >= 0 && cursor < |bs| - 1 then Escaped(pos + 2, cursor + 1, [Rendered(cursor + 1)], None)
            else Escaped(pos + 2, cursor, [], None)
          else Escaped(pos + 2, cursor, [], None)
  }

  /** The loop of `Select` from input position `pos` with the cursor at `cursor`. */
  function Keys(bs: seq<Branch>, input: Input, pos: nat, cursor: int): Session
    requires pos <= |input.data| && ValidCursor(bs, cursor)
    decreases |input.data| - pos
  {
    match ReadAt(input, pos)
    case Eof => Session(Ok(Quit), [])
    case Failed(m) => Session(Fail(m), [])
    case Got(b) =>
      if IsQuitKey(b) then Session(Ok(Quit), [])
      else if b == KeyJ then
        if cursor < |bs| - 1 then Then([Rendered(cursor + 1)], Keys(bs, input, pos + 1, cursor + 1))
        else Keys(bs, input, pos + 1, cursor)
      else if b == KeyK then
        if cursor > 0 then Then([Rendered(cursor - 1)], Keys(bs, input, pos + 1, cursor - 1))
        else Keys(bs, input, pos + 1, cursor)
      else if b == CR || b == LF then
        if |bs| == 0 then Session(Ok(Quit), [])
        else if bs[cursor].current then
          Session(Ok(Selection(bs[cursor].name, false, true)), [Printed(AlreadyOnLine(bs[cursor].name))])
        else Session(Ok(Selection(bs[cursor].name, false, false)), [])
      else if b == Esc then
        var e := Escape(bs, input, pos + 1, cursor);
        if e.err.Some? then Session(Fail(e.err.value), e.events)
        else Then(e.events, Keys(bs, input, e.pos, e.cursor))
      else Keys(bs, input, pos + 1, cursor)
  }

  const NilUI := "ui is nil"
  const Unconfigured := "ui input and output must be configured"
  const RawModeFailed := "failed to configure terminal for interactive input: "

  /** What `Select(branches)` returns and writes. */
  function SelectSpec(u: Option<UI>, bs: seq<Branch>): Session
  {
    if u.None? then Session(Fail(NilUI), [])
    else if u.value.input.None? || !u.value.hasOut then Session(Fail(Unconfigured), [])
    else if u.value.rawError.Some? then Session(Fail(RawModeFailed + u.value.rawError.value), [])
    else Then([Rendered(0)], Keys(bs, u.value.input.value, 0, 0))
  }

  /** `bufio.Reader` over the input stream. */
  class Reader {
    const input: Input
    var pos: nat

    predicate Valid()
      reads this
    {
      pos <= |input.data|
    }

    constructor (input: Input)
      ensures this.input == input && pos == 0 && Valid()
    {
      this.input := input;
      pos := 0;
    }

    /** `ReadByte`: the next byte, or what the stream ends with; the end is not consumed. */
    method ReadByte() returns (r: Read)
      requires Valid()
      modifies this
      ensures Valid()
      ensures r == ReadAt(input, old(pos))
      ensures pos == if r.Got? then old(pos) + 1 else old(pos)
    {
      r := ReadAt(input, pos);
      if r.Got? {
        pos := pos + 1;
      }
    }
  }

  /** `handleEscape`: reads at most two more bytes; the cursor comes back as `index`. */
  method HandleEscape(reader: Reader, cursor: int, maxIndex: int, bs: seq<Branch>)
    returns (index: int, drawn: seq<Event>, err: Option<string>)
    requires reader.Valid() && ValidCursor(bs, cursor) && maxIndex == |bs| - 1
    modifies reader
    ensures reader.Valid()
    ensures Escaped(reader.pos, index, drawn, err) == Escape(bs, reader.input, old(reader.pos), cursor)
  {
    index, drawn, err := cursor, [], None;
    var next := reader.ReadByte();
    if next.Eof? {
      return;
    }
    if next.Failed? {
      return cursor, [], Some(next.message);
    }
    if next.b != Bracket {
      return;
    }
    var dir := reader.ReadByte();
    if dir.Eof? {
      return;
    }
    if dir.Failed? {
      return cursor, [], Some(dir.message);
    }
    var updated := false;
    if dir.b == ArrowUp {
      if index > 0 {
        index := index - 1;
        updated := true;
      }
    } else if dir.b == ArrowDown {
      if maxIndex >= 0 && index < maxIndex {
        index := index + 1;
        updated := true;
      }
    } else {
      return;
    }
    if updated {
      drawn := [Rendered(index)];
    }
  }

  /** `Select`: draws the first frame, then reads keys until one ends the loop. */
  method Select(u: Option<UI>, bs: seq<Branch>) returns (result: Result<Selection>, events: seq<Event>)
    ensures Session(result, events) == SelectSpec(u, bs)
  {
    if u.None? {
      return Fail(NilUI), [];
    }
    var ui := u.value;
    if ui.input.None? || !ui.hasOut {
      return Fail(Unconfigured), [];
    }
    if ui.rawError.Some? {
      return Fail(RawModeFailed + ui.rawError.value), [];
    }
    var reader := new Reader(ui.input.value);
    var index := 0;
    var maxIndex := |bs| - 1;
    events := [Rendered(index)];
    while true
      invariant reader.Valid() && reader.input == ui.input.value && ValidCursor(bs, index)
      invariant SelectSpec(u, bs) == Then(events, Keys(bs, reader.input, reader.pos, index))
      decreases |reader.input.data| - reader.pos
    {
      var pos := reader.pos;
      var r := reader.ReadByte();
      if r.Eof? {
        return Ok(Quit), events;
      }
      if r.Failed? {
        return Fail(r.message), events;
      }
      var b := r.b;
      if IsQuitKey(b) {
        return Ok(Quit), events;
      } else if b == KeyJ {
        if index < maxIndex {
          index := index + 1;
          ThenThen(events, [Rendered(index)], Keys(bs, reader.input, reader.pos, index));
          events := events + [Rendered(index)];
        }
      } else if b == KeyK {
        if index > 0 {
          index := index - 1;
          ThenThen(events, [Rendered(index)], Keys(bs, reader.input, reader.pos, index));
          events := events + [Rendered(index)];
        }
      } else if b == CR || b == LF {
        if |bs| == 0 {
          return Ok(Quit), events;
        }
        var chosen := bs[index];
        if chosen.current {
          return Ok(Selection(chosen.name, false, true)), events + [Printed(AlreadyOnLine(chosen.name))];
        }
        return Ok(Selection(chosen.name, false, false)), events;
      } else if b == Esc {
        var moved, drawn, err := HandleEscape(reader, index, maxIndex, bs);
        if err.Some? {
          return Fail(err.value), events + drawn;
        }
        ThenThen(events, drawn, Keys(bs, reader.input, reader.pos, moved));
        index := moved;
        events := events + drawn;
      }
    }
  }

  // ---------------------------------------------------------------------------------------
  // What the selection loop promises

  /** The result names a listed row and says whether it is the current branch, or quits. */
  predicate Chose(bs: seq<Branch>, sel: Selection)
  {
    sel == Quit || exists i :: 0 <= i < |bs| && sel == Selection(bs[i].name, false, bs[i].current)
  }

  /** The writes after a frame drawn at `cursor`: each further frame moves the cursor one row
      and keeps it on the list; the only message is the last write, the "already on" line
      of a selection of the current branch. */
  predicate Drawn(bs: seq<Branch>, cursor: int, events: seq<Event>, result: Result<Selection>)
    decreases |events|
  {
    if events == [] then true
    else match events[0]
      case Rendered(c) =>
        ValidCursor(bs, c) && (c == cursor - 1 || c == cursor + 1) && Drawn(bs, c, events[1..], result)
      case Printed(text) =>
        |events| == 1 && result.Ok? && result.value.alreadyOn && text == AlreadyOnLine(result.value.branch)
  }

  /** The row of the last frame in `events`, or `start` when none was drawn. */
  function LastCursor(events: seq<Event>, start: int): int
    decreases |events|
  {
    if events == [] then start
    else match events[|events| - 1]
      case Rendered(c) => c
      case Printed(_) => LastCursor(events[..|events| - 1], start)
  }

  lemma {:induction false} LastCursorAppend(a: seq<Event>, b: seq<Event>, start: int)
    ensures LastCursor(a + b, start) == LastCursor(b, LastCursor(a, start))
    decreases |b|
  {
    if b == [] {
      assert a + b == a;
    } else {
      assert (a + b)[|a + b| - 1] == b[|b| - 1];
      assert (a + b)[..|a + b| - 1] == a + b[..|b| - 1];
      LastCursorAppend(a, b[..|b| - 1], start);
    }
  }

  lemma DrawnThen(bs: seq<Branch>, cursor: int, c: int, s: Session)
    requires ValidCursor(bs, c) && (c == cursor - 1 || c == cursor + 1) && Drawn(bs, c, s.events, s.result)
    ensures Drawn(bs, cursor, Then([Rendered(c)], s).events, s.result)
  {
    assert ([Rendered(c)] + s.events)[1..] == s.events;
  }

  /** A loop session ends with a valid choice, and fails only with the stream's own error. */
  lemma {:induction false} KeysResult(bs: seq<Branch>, input: Input, pos: nat, cursor: int)
    requires pos <= |input.data| && ValidCursor(bs, cursor)
    ensures var s := Keys(bs, input, pos, cursor);
      && (s.result.Ok? ==> Chose(bs, s.result.value))
      && (s.result.Err? ==> input.end.Some? && s.result.error == Error(input.end.value, Plain))
    decreases |input.data| - pos
  {
    var s := Keys(bs, input, pos, cursor);
    match ReadAt(input, pos)
    case Eof =>
    case Failed(m) =>
    case Got(b) =>
      if IsQuitKey(b) {
      } else if b == KeyJ {
        KeysResult(bs, input, pos + 1, if cursor < |bs| - 1 then cursor + 1 else cursor);
      } else if b == KeyK {
        KeysResult(bs, input, pos + 1, if cursor > 0 then cursor - 1 else cursor);
      } else if b == CR || b == LF {
        if |bs| != 0 {
          assert s.result.value == Selection(bs[cursor].name, false, bs[cursor].current);
        }
      } else if b == Esc {
        var e := Escape(bs, input, pos + 1, cursor);
        if e.err.Some? {
          EscapeFails(bs, input, pos + 1, cursor);
        } else {
          KeysResult(bs, input, e.pos, e.cursor);
        }
      } else {
        KeysResult(bs, input, pos + 1, cursor);
      }
  }

  /** A loop session draws only one-row moves that keep the cursor on the list, and writes a
      message only last. */
  lemma {:induction false} KeysDrawn(bs: seq<Branch>, input: Input, pos: nat, cursor: int)
    requires pos <= |input.data| && ValidCursor(bs, cursor)
    ensures var s := Keys(bs, input, pos, cursor);
      Drawn(bs, cursor, s.events, s.result)
    decreases |input.data| - pos
  {
    var s := Keys(bs, input, pos, cursor);
    match ReadAt(input, pos)
    case Eof =>
    case Failed(m) =>
    case Got(b) =>
      if IsQuitKey(b) {
      } else if b == KeyJ {
        if cursor < |bs| - 1 {
          KeysDrawn(bs, input, pos + 1, cursor + 1);
          DrawnThen(bs, cursor, cursor + 1, Keys(bs, input, pos + 1, cursor + 1));
        } else {
          KeysDrawn(bs, input, pos + 1, cursor);
        }
      } else if b == KeyK {
        if cursor > 0 {
          KeysDrawn(bs, input, pos + 1, cursor - 1);
          DrawnThen(bs, cursor, cursor - 1, Keys(bs, input, pos + 1, cursor - 1));
        } else {
          KeysDrawn(bs, input, pos + 1, cursor);
        }
      } else if b == CR || b == LF {
      } else if b == Esc {
        var e := Escape(bs, input, pos + 1, cursor);
        if e.err.Some? {
          EscapeFails(bs, input, pos + 1, cursor);
        } else {
          var rest := Keys(bs, input, e.pos, e.cursor);
          KeysDrawn(bs, input, e.pos, e.cursor);
          if e.events != [] {
            DrawnThen(bs, cursor, e.cursor, rest);
          } else {
            assert s == rest;
          }
        }
      } else {
        KeysDrawn(bs, input, pos + 1, cursor);
      }
  }

  /** A loop session writes the "already on" line exactly when it reports the current
      branch. */
  lemma {:induction false} KeysAnnounces(bs: seq<Branch>, input: Input, pos: nat, cursor: int)
    requires pos <= |input.data| && ValidCursor(bs, cursor)
    ensures var s := Keys(bs, input, pos, cursor);
      s.result.Ok? && s.result.value.alreadyOn <==> s.events != [] && s.events[|s.events| - 1].Printed?
    decreases |input.data| - pos
  {
    var s := Keys(bs, input, pos, cursor);
    match ReadAt(input, pos)
    case Eof =>
    case Failed(m) =>
    case Got(b) =>
      if IsQuitKey(b) {
      } else if b == KeyJ {
        var c := if cursor < |bs| - 1 then cursor + 1 else cursor;
        KeysAnnounces(bs, input, pos + 1, c);
        ThenLast(if c == cursor then [] else [Rendered(c)], Keys(bs, input, pos + 1, c));
      } else if b == KeyK {
        var c := if cursor > 0 then cursor - 1 else cursor;
        KeysAnnounces(bs, input, pos + 1, c);
        ThenLast(if c == cursor then [] else [Rendered(c)], Keys(bs, input, pos + 1, c));
      } else if b == CR || b == LF {
      } else if b == Esc {
        var e := Escape(bs, input, pos + 1, cursor);
        if e.err.Some? {
          EscapeFails(bs, input, pos + 1, cursor);
        } else {
          KeysAnnounces(bs, input, e.pos, e.cursor);
          ThenLast(e.events, Keys(bs, input, e.pos, e.cursor));
        }
      } else {
        KeysAnnounces(bs, input, pos + 1, cursor);
      }
  }

  /** Enter selects the row under the cursor: a loop session that does not quit returns the
      row of its last frame (the row it started on if it drew none), and says whether that
      row is the current branch. */
  lemma {:induction false} KeysChoosesCursor(bs: seq<Branch>, input: Input, pos: nat, cursor: int)
    requires pos <= |input.data| && ValidCursor(bs, cursor)
    ensures var s := Keys(bs, input, pos, cursor);
      s.result.Ok? && !s.result.value.quit ==>
        var c := LastCursor(s.events, cursor);
        0 <= c < |bs| && s.result.value == Selection(bs[c].name, false, bs[c].current)
    decreases |input.data| - pos
  {
    var s := Keys(bs, input, pos, cursor);
    match ReadAt(input, pos)
    case Eof =>
    case Failed(m) =>
    case Got(b) =>
      if IsQuitKey(b) {
      } else if b == KeyJ || b == KeyK {
        var c := if b == KeyJ && cursor < |bs| - 1 then cursor + 1
                 else if b == KeyK && cursor > 0 then cursor - 1
                 else cursor;
        var frames := if c == cursor then [] else [Rendered(c)];
        assert s == Then(frames, Keys(bs, input, pos + 1, c));
        KeysChoosesCursor(bs, input, pos + 1, c);
        LastCursorAppend(frames, Keys(bs, input, pos + 1, c).events, cursor);
      } else if b == CR || b == LF {
        if |bs| != 0 && bs[cursor].current {
          assert s.events[..0] == [];
        }
      } else if b == Esc {
        var e := Escape(bs, input, pos + 1, cursor);
        if e.err.None? {
          KeysChoosesCursor(bs, input, e.pos, e.cursor);
          LastCursorAppend(e.events, Keys(bs, input, e.pos, e.cursor).events, cursor);
        }
      } else {
        KeysChoosesCursor(bs, input, pos + 1, cursor);
      }
  }

  /** Frames put in front of a session leave its last write, and its result, as they were. */
  lemma ThenLast(frames: seq<Event>, s: Session)
    requires forall k :: 0 <= k < |frames| ==> frames[k].Rendered?
    ensures var t := Then(frames, s);
      t.result == s.result
      && (t.events != [] && t.events[|t.events| - 1].Printed? <==> s.events != [] && s.events[|s.events| - 1].Printed?)
  {
    var t := Then(frames, s);
    if s.events != [] {
      assert t.events[|t.events| - 1] == s.events[|s.events| - 1];
    } else {
      assert t.events == frames;
    }
  }

  /** `handleEscape` fails only with the stream's own error, and then draws nothing. */
  lemma EscapeFails(bs: seq<Branch>, input: Input, pos: nat, cursor: int)
    requires pos <= |input.data| && ValidCursor(bs, cursor)
    ensures var e := Escape(bs, input, pos, cursor);
      e.err.Some? ==> e.events == [] && input.end == e.err
  {
  }

  /** What each byte read by the loop does: the end of the stream and the quit bytes quit
      without a write; `j` moves the cursor one row down and `k` one row up, drawing a frame
      only when it moves; Enter returns the row under the cursor, or quits over an empty
      list; a read error fails; any other byte except ESC is ignored. */
  lemma KeyEffects(bs: seq<Branch>, input: Input, pos: nat, cursor: int)
    requires pos <= |input.data| && ValidCursor(bs, cursor)
    ensures var s := Keys(bs, input, pos, cursor);
      match ReadAt(input, pos)
      case Eof => s == Session(Ok(Quit), [])
      case Failed(m) => s == Session(Fail(m), [])
      case Got(b) =>
        && (IsQuitKey(b) ==> s == Session(Ok(Quit), []))
        && (b == KeyJ ==>
              var below := cursor + 1 < |bs|;
              s == Then(if below then [Rendered(cursor + 1)] else [],
                        Keys(bs, input, pos + 1, if below then cursor + 1 else cursor)))
        && (b == KeyK ==>
              s == Then(if cursor > 0 then [Rendered(cursor - 1)] else [],
                        Keys(bs, input, pos + 1, if cursor > 0 then cursor - 1 else 0)))
        && ((b == CR || b == LF) && |bs| == 0 ==> s == Session(Ok(Quit), []))
        && ((b == CR || b == LF) && |bs| > 0 ==>
              && s.result == Ok(Selection(bs[cursor].name, false, bs[cursor].current))
              && s.events == (if bs[cursor].current then [Printed(AlreadyOnLine(bs[cursor].name))] else []))
        && (!IsQuitKey(b) && b !in {KeyJ, KeyK, CR, LF, Esc} ==> s == Keys(bs, input, pos + 1, cursor))
  {
    var s := Keys(bs, input, pos, cursor);
    match ReadAt(input, pos)
    case Eof =>
    case Failed(m) =>
    case Got(b) =>
      if b == KeyJ && cursor + 1 >= |bs| {
        assert [] + s.events == s.events;
      } else if b == KeyK && cursor == 0 {
        assert [] + s.events == s.events;
      }
  }

  /** What `handleEscape` does with the bytes after ESC: `[` then `A` moves one row up and `[`
      then `B` one row down, drawing a frame only when the cursor moves; the end of the
      stream, a byte other than `[`, or another direction leave the cursor where it was and
      draw nothing; a read error is returned. */
  lemma EscapeEffects(bs: seq<Branch>, input: Input, pos: nat, cursor: int)
    requires pos <= |input.data| && ValidCursor(bs, cursor)
    ensures var e := Escape(bs, input, pos, cursor);
      && (ReadAt(input, pos) != Got(Bracket) ==>
            e.cursor == cursor && e.events == [] && (e.err.Some? <==> ReadAt(input, pos).Failed?))
      && (ReadAt(input, pos) == Got(Bracket) ==>
            match ReadAt(input, pos + 1)
            case Eof => e.cursor == cursor && e.events == [] && e.err.None?
            case Failed(m) => e.cursor == cursor && e.events == [] && e.err == Some(m)
            case Got(dir) =>
              && e.pos == pos + 2 && e.err.None?
              && (dir == ArrowUp ==>
                    e.cursor == (if cursor > 0 then cursor - 1 else 0) && (e.events == [] <==> cursor == 0))
              && (dir == ArrowDown ==>
                    e.cursor == (if cursor + 1 < |bs| then cursor + 1 else cursor)
                    && (e.events == [] <==> cursor + 1 >= |bs|))
              && (dir != ArrowUp && dir != ArrowDown ==> e.cursor == cursor && e.events == []))
  {
  }

  /** `Select` on a configured UI draws the first frame at row 0 and then runs the loop with
      the guarantees of `KeysResult` and `KeysDrawn`; otherwise it fails with its guard message and draws
      nothing. */
  lemma SelectOutcome(u: Option<UI>, bs: seq<Branch>)
    ensures var s := SelectSpec(u, bs);
      && (s.result.Ok? ==> Chose(bs, s.result.value))
      && (s.events != [] <==> u.Some? && u.value.input.Some? && u.value.hasOut && u.value.rawError.None?)
      && (s.events != [] ==> s.events[0] == Rendered(0) && Drawn(bs, 0, s.events[1..], s.result))
  {
    if u.Some? && u.value.input.Some? && u.value.hasOut && u.value.rawError.None? {
      var rest := Keys(bs, u.value.input.value, 0, 0);
      KeysResult(bs, u.value.input.value, 0, 0);
      KeysDrawn(bs, u.value.input.value, 0, 0);
      assert ([Rendered(0)] + rest.events)[1..] == rest.events;
    }
  }

  /** A `Select` that does not quit returns the row of the last frame it drew, and says
      whether that row is the current branch. */
  lemma SelectChoosesCursor(u: Option<UI>, bs: seq<Branch>)
    ensures var s := SelectSpec(u, bs);
      s.result.Ok? && !s.result.value.quit ==>
        var c := LastCursor(s.events, 0);
        0 <= c < |bs| && s.result.value == Selection(bs[c].name, false, bs[c].current)
  {
    if u.Some? && u.value.input.Some? && u.value.hasOut && u.value.rawError.None? {
      var rest := Keys(bs, u.value.input.value, 0, 0);
      KeysChoosesCursor(bs, u.value.input.value, 0, 0);
      LastCursorAppend([Rendered(0)], rest.events, 0);
    }
  }

  // The scenarios of the package's own examples, worked out on the model.

  /** "j" then Enter over a current "main" and another row selects the other row. */
  lemma MovesWithJAndEnter(u: UI, main: string, feature: string)
    requires u.input == Some(Input([KeyJ, CR], None)) && u.hasOut && u.rawError.None?
    ensures SelectSpec(Some(u), [Branch(main, true), Branch(feature, false)])
         == Session(Ok(Selection(feature, false, false)), [Rendered(0), Rendered(1)])
  {
    var bs, input := [Branch(main, true), Branch(feature, false)], u.input.value;
    assert Keys(bs, input, 1, 1) == Session(Ok(Selection(feature, false, false)), []);
    assert Keys(bs, input, 0, 0) == Then([Rendered(1)], Keys(bs, input, 1, 1));
  }

  /** Down, down, up, Enter over three rows selects the middle one. */
  lemma HandlesArrowKeys(u: UI, bs: seq<Branch>)
    requires u.input == Some(Input([Esc, Bracket, ArrowDown, Esc, Bracket, ArrowDown, Esc, Bracket, ArrowUp, CR], None))
    requires u.hasOut && u.rawError.None? && |bs| == 3 && !bs[1].current
    ensures SelectSpec(Some(u), bs)
         == Session(Ok(Selection(bs[1].name, false, false)), [Rendered(0), Rendered(1), Rendered(2), Rendered(1)])
  {
    var input := u.input.value;
    assert Keys(bs, input, 9, 1) == Session(Ok(Selection(bs[1].name, false, false)), []);
    assert Escape(bs, input, 7, 2) == Escaped(9, 1, [Rendered(1)], None);
    assert Keys(bs, input, 6, 2) == Then([Rendered(1)], Keys(bs, input, 9, 1));
    assert Escape(bs, input, 4, 1) == Escaped(6, 2, [Rendered(2)], None);
    assert Keys(bs, input, 3, 1) == Then([Rendered(2)], Keys(bs, input, 6, 2));
    assert Escape(bs, input, 1, 0) == Escaped(3, 1, [Rendered(1)], None);
    assert Keys(bs, input, 0, 0) == Then([Rendered(1)], Keys(bs, input, 3, 1));
  }

  /** "q" quits without a branch. */
  lemma QuitKey(u: UI, bs: seq<Branch>)
    requires u.input == Some(Input([KeyQ], None)) && u.hasOut && u.rawError.None?
    ensures SelectSpec(Some(u), bs) == Session(Ok(Quit), [Rendered(0)])
  {
  }

  /** Enter on the current branch reports it and writes the "already on" line. */
  lemma CurrentBranchSelected(u: UI, bs: seq<Branch>)
    requires u.input == Some(Input([CR], None)) && u.hasOut && u.rawError.None?
    requires |bs| > 0 && bs[0].current
    ensures SelectSpec(Some(u), bs)
         == Session(Ok(Selection(bs[0].name, false, true)), [Rendered(0), Printed(AlreadyOnLine(bs[0].name))])
  {
  }
}
