/**
 * Properties of the filename column that relate its operations to each
 * other and to the display width of what they render.
 */
module FilenameColumnProperties {
  import opened Wrappers
  import opened Text
  import opened Paths
  import opened FilenameColumn

  // ---------------------------------------------------------------------
  // getText

  /**
   * When every character's width is summed and a space is one cell, a row
   * that `getText` renders fills the column exactly; it renders one exactly
   * when the unpadded row fits.
   */
  lemma RowFillsColumn(params: Params, item: Item, startCol: int, endCol: int, cw: char -> nat)
    requires cw(' ') == 1
    requires item.action.Some?
    ensures var r := GetText(params, item, startCol, endCol, StrwidthOf(cw));
      && (r.Ok? <==> CellsWidth(cw, ItemRow(params, item, item.action.value)) <= endCol - startCol)
      && (r.Ok? ==> CellsWidth(cw, r.value.text) == endCol - startCol)
  {
    var r := GetText(params, item, startCol, endCol, StrwidthOf(cw));
    var row := ItemRow(params, item, item.action.value);
    if r.Ok? {
      var count := endCol - startCol - CellsWidth(cw, row);
      CellsWidthAppend(cw, row, Spaces(count));
      CellsWidthSpaces(cw, count);
    }
  }

  /** The highlight `h`, placed in a column starting at `startCol`, covers exactly `part` of `text`. */
  predicate Covers(text: string, h: ItemHighlight, startCol: int, part: string)
  {
    && 0 <= h.col - startCol <= h.col - startCol + h.width <= |text|
    && text[h.col - startCol..h.col - startCol + h.width] == part
  }

  /**
   * When the icon is `iconWidth` code units long and the name lies in the
   * Basic Multilingual Plane, the two highlight spans of a directory or link
   * row cover exactly its icon and its name, in that order, measured from
   * `startCol`; the name span ends where the unpadded row ends.
   */
  lemma RowSpans(params: Params, item: Item, action: ActionData, startCol: int)
    requires IsDirectory(item) || IsLink(action)
    requires |Icon(params, item, action)| == params.iconWidth
    requires Bmp(NameText(item, action))
    ensures var row, hs := ItemRow(params, item, action), Highlights(params, item, action, startCol);
      && |hs| == 2
      && Covers(row, hs[0], startCol, Icon(params, item, action))
      && Covers(row, hs[1], startCol, NameText(item, action))
      && hs[0].col + hs[0].width < hs[1].col
      && hs[1].col - startCol + hs[1].width == |row|
  {
    var icon, name := Icon(params, item, action), NameText(item, action);
    var row := Row(item.level, icon, name);
    var hs := Highlights(params, item, action, startCol);
    Utf16LengthBmp(name);
    RowLayout(item.level, icon, name);
    var i0, i1 := hs[0].col - startCol, hs[1].col - startCol;
    assert i0 == item.level && i0 + hs[0].width == item.level + |icon|;
    assert i1 == item.level + |icon| + 1 && i1 + hs[1].width == |row|;
    assert row[i0..i0 + hs[0].width] == row[item.level..item.level + |icon|];
    assert row[i1..i1 + hs[1].width] == row[item.level + |icon| + 1..];
  }

  /** A span covering part of a row covers the same part of the row followed by padding. */
  lemma CoversPadded(row: string, pad: string, h: ItemHighlight, startCol: int, part: string)
    requires Covers(row, h, startCol, part)
    ensures Covers(row + pad, h, startCol, part)
  {
    SliceOfConcat(row, pad, h.col - startCol, h.col - startCol + h.width);
  }

  /** The spans of `RowSpans` cover the icon and the name in the text `getText` returns. */
  lemma SpansCoverIconAndName(params: Params, item: Item, startCol: int, endCol: int, strwidth: string -> nat)
    requires item.action.Some?
    requires IsDirectory(item) || IsLink(item.action.value)
    requires |Icon(params, item, item.action.value)| == params.iconWidth
    requires Bmp(NameText(item, item.action.value))
    requires GetText(params, item, startCol, endCol, strwidth).Ok?
    ensures var t := GetText(params, item, startCol, endCol, strwidth).value;
      && |t.highlights| == 2
      && Covers(t.text, t.highlights[0], startCol, Icon(params, item, item.action.value))
      && Covers(t.text, t.highlights[1], startCol, NameText(item, item.action.value))
  {
    var action := item.action.value;
    var row := ItemRow(params, item, action);
    var hs := Highlights(params, item, action, startCol);
    var pad := Spaces(endCol - startCol - strwidth(row));
    var t := GetText(params, item, startCol, endCol, strwidth).value;
    assert t == TextResult(row + pad, hs) by {
      Fits(params, item, startCol, endCol, strwidth);
    }
    RowSpans(params, item, action, startCol);
    CoversPadded(row, pad, hs[0], startCol, Icon(params, item, action));
    CoversPadded(row, pad, hs[1], startCol, NameText(item, action));
  }

  /** With the default parameters every highlight uses its built-in group. */
  lemma DefaultsUseBuiltinGroups(item: Item, startCol: int, endCol: int, strwidth: string -> nat)
    requires GetText(Defaults(), item, startCol, endCol, strwidth).Ok?
    ensures var hs := GetText(Defaults(), item, startCol, endCol, strwidth).value.highlights;
      forall i :: 0 <= i < |hs| ==>
        hs[i].hlGroup == (if hs[i].name == DirectoryIconSpan then "Special"
                          else if hs[i].name == DirectoryNameSpan then "Directory"
                          else "Comment")
  {
    var action := item.action.value;
    var hs := Highlights(Defaults(), item, action, startCol);
    assert GetText(Defaults(), item, startCol, endCol, strwidth).value.highlights == hs by {
      Fits(Defaults(), item, startCol, endCol, strwidth);
    }
    assert DirectoryIconSpan != DirectoryNameSpan by {
      assert DirectoryIconSpan[26] != DirectoryNameSpan[26];
    }
    assert LinkIconSpan != DirectoryIconSpan && LinkIconSpan != DirectoryNameSpan by {
      assert LinkIconSpan[16] != DirectoryIconSpan[16];
    }
    assert LinkNameSpan != DirectoryIconSpan && LinkNameSpan != DirectoryNameSpan by {
      assert LinkNameSpan[16] != DirectoryIconSpan[16];
    }
  }

  /**
   * A directory's row shows the directory icon after its indentation, and
   * its spans include no link span, whether or not the item is also a link.
   */
  lemma DirectoryTakesPrecedence(params: Params, item: Item, action: ActionData, startCol: int)
    requires IsDirectory(item)
    ensures var hs, row := Highlights(params, item, action, startCol), ItemRow(params, item, action);
      var icon := if item.expanded then params.expandedIcon else params.collapsedIcon;
      && (forall i :: 0 <= i < |hs| ==> hs[i].name != LinkIconSpan && hs[i].name != LinkNameSpan)
      && item.level + |icon| <= |row|
      && row[item.level..item.level + |icon|] == icon
  {
    assert DirectoryIconSpan != LinkIconSpan && DirectoryIconSpan != LinkNameSpan by {
      assert DirectoryIconSpan[16] != LinkIconSpan[16];
      assert DirectoryIconSpan[16] != LinkNameSpan[16];
    }
    assert DirectoryNameSpan != LinkIconSpan && DirectoryNameSpan != LinkNameSpan by {
      assert DirectoryNameSpan[16] != LinkIconSpan[16];
      assert DirectoryNameSpan[16] != LinkNameSpan[16];
    }
    RowLayout(item.level, Icon(params, item, action), NameText(item, action));
  }

  // ---------------------------------------------------------------------
  // getLength

  /** A batch whose every item is at least as wide as in another batch makes a column at least as wide. */
  lemma LengthMonotone(params: Params, items: seq<Item>, grown: seq<Item>, strwidth: string -> nat)
    requires |grown| == |items| > 0
    requires forall j :: 0 <= j < |items| ==>
      ItemWidth(params, grown[j], strwidth) >= ItemWidth(params, items[j], strwidth)
    ensures GetLength(params, grown, strwidth).value >= GetLength(params, items, strwidth).value
  {
    var m := GetLength(params, items, strwidth).value;
    var j :| 0 <= j < |items| && ItemWidth(params, items[j], strwidth) == m;
    assert ItemWidth(params, grown[j], strwidth) >= m;
  }

  /** Indenting one item more never makes the column narrower. */
  lemma LengthGrowsWithLevel(params: Params, items: seq<Item>, i: nat, k: nat, strwidth: string -> nat)
    requires i < |items|
    ensures var grown := items[i := items[i].(level := items[i].level + k)];
      GetLength(params, grown, strwidth).value >= GetLength(params, items, strwidth).value
  {
    var grown := items[i := items[i].(level := items[i].level + k)];
    LengthMonotone(params, items, grown, strwidth);
  }

  /**
   * With a summed display width, the width of an item is its level, one
   * separating cell, the digits of `iconWidth` and the width of its display
   * text.
   */
  lemma ItemWidthNarrow(params: Params, item: Item, cw: char -> nat)
    requires NarrowAscii(cw)
    ensures ItemWidth(params, item, StrwidthOf(cw))
         == item.level + 1 + |IntToString(params.iconWidth)| + CellsWidth(cw, item.display.GetOr(item.word))
  {
    var digits := IntToString(params.iconWidth);
    CellsWidthAppend(cw, digits, item.display.GetOr(item.word));
    CellsWidthAscii(cw, digits);
  }

  /** Lengthening one item's display text never makes the column narrower, whatever each character's width. */
  lemma LengthGrowsWithName(params: Params, items: seq<Item>, i: nat, suffix: string, cw: char -> nat)
    requires i < |items|
    ensures var longer := items[i].display.GetOr(items[i].word) + suffix;
      var grown := items[i := items[i].(display := Some(longer))];
      GetLength(params, grown, StrwidthOf(cw)).value >= GetLength(params, items, StrwidthOf(cw)).value
  {
    var longer := items[i].display.GetOr(items[i].word) + suffix;
    var grown := items[i := items[i].(display := Some(longer))];
    DisplayGrows(params, items[i], suffix, cw);
    LengthMonotone(params, items, grown, StrwidthOf(cw));
  }

  /** Lengthening an item's display text never makes the item narrower, whatever each character's width. */
  lemma DisplayGrows(params: Params, item: Item, suffix: string, cw: char -> nat)
    ensures var longer := item.(display := Some(item.display.GetOr(item.word) + suffix));
      ItemWidth(params, longer, StrwidthOf(cw)) >= ItemWidth(params, item, StrwidthOf(cw))
  {
    var head := IntToString(params.iconWidth) + item.display.GetOr(item.word);
    assert IntToString(params.iconWidth) + (item.display.GetOr(item.word) + suffix) == head + suffix;
    CellsWidthAppend(cw, head, suffix);
  }

  // ---------------------------------------------------------------------
  // getLength against getText

  /** An item whose word is its bare name, with no display text and no path. */
  function BareItem(word: string, level: nat, isTree: bool, expanded: bool): Item
  {
    Item(word, None, level, Some(isTree), expanded, Some(ActionData(None, None)))
  }

  /** The default icon of a bare item. */
  function BareIcon(isTree: bool, expanded: bool): string
  {
    if !isTree then " " else if expanded then "-" else "+"
  }

  /** With the defaults, a bare item's row shows its word, with a separator after a directory's. */
  lemma BareRowText(word: string, level: nat, isTree: bool, expanded: bool)
    requires Separator !in word
    ensures ItemRow(Defaults(), BareItem(word, level, isTree, expanded), ActionData(None, None))
         == Row(level, BareIcon(isTree, expanded), word + (if isTree then "/" else ""))
  {
    BasenameOfName(word);
  }

  /** A row is as wide as its indentation, its icon, one space and its name. */
  lemma RowWidth(cw: char -> nat, level: nat, icon: string, name: string)
    requires cw(' ') == 1
    ensures CellsWidth(cw, Row(level, icon, name)) == level + CellsWidth(cw, icon) + 1 + CellsWidth(cw, name)
  {
    var indent := Spaces(level);
    assert Row(level, icon, name) == ((indent + icon) + " ") + name;
    CellsWidthAppend(cw, (indent + icon) + " ", name);
    CellsWidthAppend(cw, indent + icon, " ");
    CellsWidthAppend(cw, indent, icon);
    CellsWidthSpaces(cw, level);
    assert CellsWidth(cw, " ") == CellsWidth(cw, []) + cw(' ');
  }

  /** With the defaults and narrow ASCII, how wide a bare item's row is. */
  lemma BareRowWidth(word: string, level: nat, isTree: bool, expanded: bool, cw: char -> nat)
    requires NarrowAscii(cw)
    requires Separator !in word
    ensures CellsWidth(cw, ItemRow(Defaults(), BareItem(word, level, isTree, expanded), ActionData(None, None)))
         == level + 2 + CellsWidth(cw, word) + (if isTree then 1 else 0)
  {
    BareRowText(word, level, isTree, expanded);
    var icon := BareIcon(isTree, expanded);
    var tail: string := if isTree then "/" else "";
    RowWidth(cw, level, icon, word + tail);
    CellsWidthAppend(cw, word, tail);
    CellsWidthAscii(cw, icon);
    CellsWidthAscii(cw, tail);
  }

  /** With the defaults and narrow ASCII, the width `getLength` reckons for one bare item. */
  lemma BareLength(word: string, level: nat, isTree: bool, expanded: bool, cw: char -> nat)
    requires NarrowAscii(cw)
    ensures GetLength(Defaults(), [BareItem(word, level, isTree, expanded)], StrwidthOf(cw))
         == Finite(level + 2 + CellsWidth(cw, word))
  {
    ItemWidthNarrow(Defaults(), BareItem(word, level, isTree, expanded), cw);
    assert IntToString(1) == "1";
  }

  /**
   * With the default parameters, a plain file whose word is its bare name
   * fills a column exactly as wide as `getLength` reckons it: no padding.
   */
  lemma BareFileRowFitsLength(word: string, level: nat, startCol: int, cw: char -> nat)
    requires NarrowAscii(cw)
    requires Separator !in word
    ensures var item := BareItem(word, level, false, false);
      var n := GetLength(Defaults(), [item], StrwidthOf(cw)).value;
      GetText(Defaults(), item, startCol, startCol + n, StrwidthOf(cw))
        == Ok(TextResult(Spaces(level) + "  " + word, []))
  {
    var item := BareItem(word, level, false, false);
    var n := GetLength(Defaults(), [item], StrwidthOf(cw)).value;
    BareLength(word, level, false, false, cw);
    BareRowWidth(word, level, false, false, cw);
    BareFileRow(word, level);
    ExactFit(Defaults(), item, startCol, startCol + n, StrwidthOf(cw));
  }

  /** A bare file's row: its indentation, the space icon, a space and its word. */
  lemma BareFileRow(word: string, level: nat)
    requires Separator !in word
    ensures ItemRow(Defaults(), BareItem(word, level, false, false), ActionData(None, None))
         == Spaces(level) + "  " + word
  {
    BareRowText(word, level, false, false);
    assert word + "" == word;
  }

  /** A row that fits is returned padded by the cells it leaves free, with the row's spans. */
  lemma Fits(params: Params, item: Item, startCol: int, endCol: int, strwidth: string -> nat)
    requires item.action.Some?
    requires strwidth(ItemRow(params, item, item.action.value)) <= endCol - startCol
    ensures var row := ItemRow(params, item, item.action.value);
      GetText(params, item, startCol, endCol, strwidth)
        == Ok(TextResult(row + Spaces(endCol - startCol - strwidth(row)),
                         Highlights(params, item, item.action.value, startCol)))
  {
  }

  /** A row exactly as wide as the column is returned without padding. */
  lemma ExactFit(params: Params, item: Item, startCol: int, endCol: int, strwidth: string -> nat)
    requires item.action.Some?
    requires strwidth(ItemRow(params, item, item.action.value)) == endCol - startCol
    ensures GetText(params, item, startCol, endCol, strwidth)
         == Ok(TextResult(ItemRow(params, item, item.action.value), Highlights(params, item, item.action.value, startCol)))
  {
    Fits(params, item, startCol, endCol, strwidth);
    assert ItemRow(params, item, item.action.value) + Spaces(0) == ItemRow(params, item, item.action.value);
  }

  /**
   * With the default parameters, a directory whose word is its bare name is
   * one cell wider than `getLength` reckons it, because of the separator
   * after its name: given exactly that width, `getText` throws.
   */
  lemma BareDirectoryRowOverflowsLength(word: string, level: nat, expanded: bool, startCol: int, cw: char -> nat)
    requires NarrowAscii(cw)
    requires Separator !in word
    ensures var item := BareItem(word, level, true, expanded);
      var n := GetLength(Defaults(), [item], StrwidthOf(cw)).value;
      GetText(Defaults(), item, startCol, startCol + n, StrwidthOf(cw)) == Err(NegativeRepeat(-1))
  {
    BareLength(word, level, true, expanded, cw);
    BareRowWidth(word, level, true, expanded, cw);
  }

  // ---------------------------------------------------------------------
  // Rendered examples

  /** A plain file at the top level, default parameters, columns [0, 10). */
  lemma FileExample(strwidth: string -> nat)
    requires strwidth("  foo.txt") == 9
    ensures GetText(Defaults(), BareItem("foo.txt", 0, false, false), 0, 10, strwidth)
         == Ok(TextResult("  foo.txt ", []))
  {
    var item := BareItem("foo.txt", 0, false, false);
    FileExampleRow();
    Fits(Defaults(), item, 0, 10, strwidth);
    assert Spaces(1) == " " by { assert Spaces(1) == Spaces(0) + " "; }
    assert "  foo.txt" + " " == "  foo.txt ";
  }

  /** The row and spans of the file in `FileExample`. */
  lemma FileExampleRow()
    ensures ItemRow(Defaults(), BareItem("foo.txt", 0, false, false), ActionData(None, None)) == "  foo.txt"
    ensures Highlights(Defaults(), BareItem("foo.txt", 0, false, false), ActionData(None, None), 0) == []
  {
    BareFileRow("foo.txt", 0);
    assert Spaces(0) + "  " + "foo.txt" == "  foo.txt";
  }

  /** A collapsed directory one level deep, default parameters, columns [0, 12). */
  lemma DirectoryExample(strwidth: string -> nat)
    requires strwidth(" + bar/") == 7
    ensures var item := Item("bar", None, 1, Some(true), false, Some(ActionData(None, Some("/a/bar"))));
      GetText(Defaults(), item, 0, 12, strwidth)
        == Ok(TextResult(" + bar/     ",
                         [ItemHighlight(DirectoryIconSpan, "Special", 1, 1),
                          ItemHighlight(DirectoryNameSpan, "Directory", 3, 4)]))
  {
    var item := Item("bar", None, 1, Some(true), false, Some(ActionData(None, Some("/a/bar"))));
    DirectoryExampleRow();
    Fits(Defaults(), item, 0, 12, strwidth);
    FiveSpaces();
    assert " + bar/" + "     " == " + bar/     ";
  }

  /** The padding in `DirectoryExample`. */
  lemma FiveSpaces()
    ensures Spaces(5) == "     "
  {
    assert Spaces(2) == "  " by { assert Spaces(1) == Spaces(0) + " "; }
    assert Spaces(4) == "    " by { assert Spaces(3) == Spaces(2) + " "; }
  }

  /** The name shown for the directory in `DirectoryExample`. */
  lemma DirectoryExampleName()
    ensures NameText(Item("bar", None, 1, Some(true), false, Some(ActionData(None, Some("/a/bar")))),
                     ActionData(None, Some("/a/bar"))) == "bar/"
  {
    BasenameExamples();
  }

  /** The row and spans of the directory in `DirectoryExample`. */
  lemma DirectoryExampleRow()
    ensures var item := Item("bar", None, 1, Some(true), false, Some(ActionData(None, Some("/a/bar"))));
      var action := ActionData(None, Some("/a/bar"));
      && ItemRow(Defaults(), item, action) == " + bar/"
      && Highlights(Defaults(), item, action, 0)
         == [ItemHighlight(DirectoryIconSpan, "Special", 1, 1),
             ItemHighlight(DirectoryNameSpan, "Directory", 3, 4)]
  {
    DirectoryExampleName();
    Utf16LengthBmp("bar/");
    assert Spaces(1) == " " by { assert Spaces(1) == Spaces(0) + " "; }
    assert " " + "+" + " " + "bar/" == " + bar/";
  }
}
