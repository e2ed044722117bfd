/**
 * The "filename" column of the ddu framework: for one tree item it renders
 * the row text (indentation, an icon, a space and the item's name, padded to
 * the column's width) and the highlight spans of a directory or link row; for
 * a batch of items it computes the width the column needs.
 *
 * Vim's `strwidth()`, reached over RPC, is a parameter `strwidth` of the
 * operations that call it.
 */
module FilenameColumn {
  import opened Wrappers
  import opened Text
  import opened Paths

  /** The user's highlight-group overrides; an absent one falls back to a built-in group. */
  datatype HighlightGroup = HighlightGroup(
    directoryIcon: Option<string>,
    directoryName: Option<string>,
    linkIcon: Option<string>,
    linkName: Option<string>)

  /** The column's parameters. */
  datatype Params = Params(
    collapsedIcon: string,
    expandedIcon: string,
    iconWidth: int,
    linkIcon: string,
    highlights: HighlightGroup)

  /** The fields of an item's action data that the column reads. */
  datatype ActionData = ActionData(isLink: Option<bool>, path: Option<string>)

  /** The fields of a ddu item that the column reads; `action` may be absent. */
  datatype Item = Item(
    word: string,
    display: Option<string>,
    level: nat,
    isTree: Option<bool>,
    expanded: bool,
    action: Option<ActionData>)

  datatype ItemHighlight = ItemHighlight(name: string, hlGroup: string, col: int, width: int)

  datatype TextResult = TextResult(text: string, highlights: seq<ItemHighlight>)

  /** The exceptions `getText` can throw. */
  datatype RenderError =
    | MissingAction             // reading `isLink` of an absent action is a TypeError
    | NegativeRepeat(count: int) // `" ".repeat` of a negative count is a RangeError

  /** What `Math.max` returns for a batch: `-Infinity` when the batch is empty. */
  datatype MaxWidth = NegativeInfinity | Finite(value: int)

  const DirectoryIconSpan := "column-filename-directory-icon"
  const DirectoryNameSpan := "column-filename-directory-name"
  const LinkIconSpan := "column-filename-link-icon"
  const LinkNameSpan := "column-filename-link-name"

  // ---------------------------------------------------------------------
  // params

  function NoOverrides(): HighlightGroup
  {
    HighlightGroup(None, None, None, None)
  }

  /** The default parameters: each icon is one narrow character, as wide as `iconWidth`. */
  function Defaults(): (p: Params)
    ensures p.collapsedIcon == "+" && p.expandedIcon == "-" && p.linkIcon == "@"
    ensures p.iconWidth == 1 && p.highlights == NoOverrides()
    ensures |p.collapsedIcon| == |p.expandedIcon| == |p.linkIcon| == p.iconWidth
    ensures PrintableAscii(p.collapsedIcon + p.expandedIcon + p.linkIcon)
  {
    Params("+", "-", 1, "@", NoOverrides())
  }

  // ---------------------------------------------------------------------
  // getText

  predicate IsDirectory(item: Item)
  {
    item.isTree.GetOr(false)
  }

  predicate IsLink(action: ActionData)
  {
    action.isLink.GetOr(false)
  }

  /** The path whose basename names the item: the action's path, else the item's word. */
  function RawPath(item: Item, action: ActionData): string
  {
    action.path.GetOr(item.word)
  }

  /** The name shown in the row: the basename, with a separator after a directory's. */
  function NameText(item: Item, action: ActionData): string
  {
    Basename(RawPath(item, action)) + (if IsDirectory(item) then [Separator] else [])
  }

  /**
   * A directory's name ends in exactly one separator, any other name has
   * none, and either way the name has the basename of the item's path.
   */
  lemma NameTextShape(item: Item, action: ActionData)
    ensures var r := NameText(item, action);
      && Basename(r) == Basename(RawPath(item, action))
      && (IsDirectory(item) ==> |r| > 0 && r[|r| - 1] == Separator && Separator !in r[..|r| - 1])
      && (!IsDirectory(item) ==> Separator !in r)
  {
    var base := Basename(RawPath(item, action));
    BasenameIdempotent(RawPath(item, action));
    if IsDirectory(item) {
      BasenameIgnoresTrailingSlash(base);
      assert (base + [Separator])[..|base|] == base;
    } else {
      assert NameText(item, action) == base;
    }
  }

  /** The icon: a directory's wins over a link's; a plain file shows a space. */
  function Icon(params: Params, item: Item, action: ActionData): (icon: string)
    ensures IsDirectory(item) ==>
      icon == if item.expanded then params.expandedIcon else params.collapsedIcon
    ensures !IsDirectory(item) && IsLink(action) ==> icon == params.linkIcon
    ensures !IsDirectory(item) && !IsLink(action) ==> icon == " "
  {
    var directoryIcon := if item.expanded then params.expandedIcon else params.collapsedIcon;
    if IsDirectory(item) then directoryIcon
    else if IsLink(action) then params.linkIcon
    else " "
  }

  /** The unpadded row: `level` spaces, the icon, a space, the name. */
  function Row(level: nat, icon: string, name: string): string
  {
    Spaces(level) + icon + " " + name
  }

  /** Where the indentation, the icon, the space and the name sit in a row. */
  lemma RowLayout(level: nat, icon: string, name: string)
    ensures var row := Row(level, icon, name);
      && |row| == level + |icon| + 1 + |name|
      && row[..level] == Spaces(level)
      && row[level..level + |icon|] == icon
      && row[level + |icon|] == ' '
      && row[level + |icon| + 1..] == name
  {
    var indent := Spaces(level);
    var head := indent + icon + " ";
    var row := head + name;
    assert row[..|head|] == head && row[|head|..] == name;
    assert head[..level] == indent && head[level..level + |icon|] == icon;
    assert row[..level] == head[..level];
    assert row[level..level + |icon|] == head[level..level + |icon|];
  }

  /** The row of an item with the given action. */
  function ItemRow(params: Params, item: Item, action: ActionData): string
  {
    Row(item.level, Icon(params, item, action), NameText(item, action))
  }

  /**
   * The highlight spans: a directory's icon and name, else a link's icon and
   * name, else none. The name span starts one cell after the icon span ends
   * and is as long as the name in UTF-16 code units.
   */
  function Highlights(params: Params, item: Item, action: ActionData, startCol: int)
    : (hs: seq<ItemHighlight>)
    ensures |hs| == if IsDirectory(item) || IsLink(action) then 2 else 0
    ensures |hs| == 2 ==>
      && hs[0].col == startCol + item.level && hs[0].width == params.iconWidth
      && hs[1].col == hs[0].col + params.iconWidth + 1
      && hs[1].width == Utf16Length(NameText(item, action))
    ensures IsDirectory(item) ==>
      && hs[0].name == DirectoryIconSpan
      && hs[0].hlGroup == params.highlights.directoryIcon.GetOr("Special")
      && hs[1].name == DirectoryNameSpan
      && hs[1].hlGroup == params.highlights.directoryName.GetOr("Directory")
    ensures !IsDirectory(item) && IsLink(action) ==>
      && hs[0].name == LinkIconSpan
      && hs[0].hlGroup == params.highlights.linkIcon.GetOr("Comment")
      && hs[1].name == LinkNameSpan
      && hs[1].hlGroup == params.highlights.linkName.GetOr("Comment")
  {
    var iconCol := startCol + item.level;
    var nameCol := startCol + item.level + params.iconWidth + 1;
    var nameWidth := Utf16Length(NameText(item, action));
    var user := params.highlights;
    if IsDirectory(item) then
      [ItemHighlight(DirectoryIconSpan, user.directoryIcon.GetOr("Special"), iconCol, params.iconWidth),
       ItemHighlight(DirectoryNameSpan, user.directoryName.GetOr("Directory"), nameCol, nameWidth)]
    else if IsLink(action) then
      [ItemHighlight(LinkIconSpan, user.linkIcon.GetOr("Comment"), iconCol, params.iconWidth),
       ItemHighlight(LinkNameSpan, user.linkName.GetOr("Comment"), nameCol, nameWidth)]
    else
      []
  }

  /**
   * `getText`: the row padded with spaces to `endCol - startCol` cells as
   * `strwidth` measures the row, and the highlight spans. A row wider than the
   * column makes the padding count negative, and `repeat` throws.
   */
  function GetText(params: Params, item: Item, startCol: int, endCol: int, strwidth: string -> nat)
    : (r: Result<TextResult, RenderError>)
    ensures item.action.None? ==> r == Err(MissingAction)
    ensures item.action.Some? ==>
      var row := ItemRow(params, item, item.action.value);
      var count := endCol - startCol - strwidth(row);
      && (r.Ok? <==> strwidth(row) <= endCol - startCol)
      && (r.Err? ==> r.error == NegativeRepeat(count))
      && (r.Ok? ==> r.value.text == row + Spaces(count))
      && (r.Ok? ==> r.value.highlights == Highlights(params, item, item.action.value, startCol))
  {
    match item.action
    case None => Err(MissingAction)
    case Some(action) =>
      var highlights := Highlights(params, item, action, startCol);
      var text := ItemRow(params, item, action);
      var width := strwidth(text);
      var count := endCol - startCol - width;
      if count < 0 then Err(NegativeRepeat(count))
      else Ok(TextResult(text + Spaces(count), highlights))
  }

  // ---------------------------------------------------------------------
  // getLength

  /** The width `getLength` reckons for one item: the icon width is coerced to a string and measured with the name. */
  function ItemWidth(params: Params, item: Item, strwidth: string -> nat): (w: int)
    ensures w >= item.level + 1
  {
    item.level + 1 + strwidth(IntToString(params.iconWidth) + item.display.GetOr(item.word))
  }

  /** `Math.max(...ws)`. */
  function MaxOf(ws: seq<int>): (m: MaxWidth)
    ensures m.NegativeInfinity? <==> ws == []
    ensures m.Finite? ==> forall i :: 0 <= i < |ws| ==> ws[i] <= m.value
    ensures m.Finite? ==> exists i :: 0 <= i < |ws| && ws[i] == m.value
  {
    if ws == [] then NegativeInfinity
    else
      match MaxOf(ws[1..])
      case NegativeInfinity => Finite(ws[0])
      case Finite(rest) => Finite(if ws[0] >= rest then ws[0] else rest)
  }

  /** `items.map(...)`: the width of each item, in order. */
  function Widths(params: Params, items: seq<Item>, strwidth: string -> nat): (ws: seq<int>)
    ensures |ws| == |items|
    ensures forall i :: 0 <= i < |items| ==> ws[i] == ItemWidth(params, items[i], strwidth)
  {
    if items == [] then [] else [ItemWidth(params, items[0], strwidth)] + Widths(params, items[1..], strwidth)
  }

  /** `getLength`: the widest item of the batch. */
  function GetLength(params: Params, items: seq<Item>, strwidth: string -> nat): (r: MaxWidth)
    ensures r.NegativeInfinity? <==> items == []
    ensures r.Finite? ==> forall i :: 0 <= i < |items| ==> ItemWidth(params, items[i], strwidth) <= r.value
    ensures r.Finite? ==> exists i :: 0 <= i < |items| && ItemWidth(params, items[i], strwidth) == r.value
    ensures r.Finite? ==> forall i :: 0 <= i < |items| ==> items[i].level + 1 <= r.value
  {
    MaxOf(Widths(params, items, strwidth))
  }
}
