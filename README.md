# ddu filename column, modelled in Dafny

This project models the `filename` column of the ddu.vim plugin framework
(`denops/@ddu-columns/filename.ts`, class `Column`). For each tree item, the
column renders one row of text. A row is made of:

- the item's indentation;
- an icon;
- a space;
- the item's name (the basename of its path, with a `/` after a directory's name);
- spaces padding it to the column's width.

A directory or link row also carries two highlight spans: one over the icon
and one over the name. For a batch of items, the column computes the width it
needs. Its defaults are the icons `+`, `-` and `@`, and an icon width of 1.

Modules:

- `Wrappers`: `Option` (for `null` or `undefined`, with `??` as `GetOr`) and `Result`
  (for a call that throws).
- `Text`:
  - `" ".repeat(n)`;
  - a per-character sum of display cells, used as a model of Vim's `strwidth()`;
  - JavaScript's `.length` as a count of UTF-16 code units;
  - the coercion of an integral number to a string, with its inverse.
- `Paths`: `basename` of the Deno standard library's POSIX path module,
  without an extension argument. It is characterised independently by `IsBasename`.
- `FilenameColumn`: the column's data (`Params`, `HighlightGroup`,
  `ActionData`, and the item fields it reads) and its operations:
  - `params` is `Defaults`;
  - `getText` is `GetText`;
  - `getLength` is `GetLength`.
- `FilenameColumnProperties`: lemmas that relate the operations to each other
  and to the display width of what they render.

Every operation is a pure function. Vim's `strwidth()` is reached over RPC
from the column, so it is a parameter `strwidth: string -> nat`. Lemmas that
need exact widths instantiate it with `StrwidthOf(cw)`, which sums a
per-character width `cw`. Their hypotheses are that a space is one cell, or
that printable ASCII is one cell each.

Behaviour of `filename.ts` that the model keeps, as the code has it:

- `getText` reads `isLink` of the item's action without a guard. An item
  without an action therefore throws (`Err(MissingAction)`).
- The padding count `endCol - startCol - strwidth(row)` is not clamped. A row
  wider than the column makes `repeat` throw (`Err(NegativeRepeat(count))`).
- `action.path ?? item.word` keeps an empty path, because `??` replaces only
  `null` and `undefined`, not `""`.
- The name span's width is the name's UTF-16 length, not its display width.
- A plain file's icon is a space, so its row starts with two spaces after the
  indentation: `"  foo.txt"`.
- `getLength` measures `String(iconWidth) + (display ?? word)`. This is
  neither the icon nor the basename that `getText` renders, and it does not
  count a directory's trailing `/`.
- An empty batch gives `Math.max()`, which is `-Infinity` (`NegativeInfinity`).
- The column reads neither the action's `isDirectory` field nor a symlink
  target. It has no grouped path prefix, no separate indentation width and no
  clamping of the padding.

A consequence, proved as `BareDirectoryRowOverflowsLength`: with the default
parameters, widths summed per character and printable ASCII one cell each, the
row of a directory whose word is its bare name and which has no display text
and no path is one cell wider than the width `getLength` reckons for it.
Rendered at exactly that width, `getText` throws. A plain file of the same
kind fits that width exactly (`BareFileRowFitsLength`). With a display text,
`getLength` measures that text instead, and the row may fit.

## Model

| member | source | states |
|---|---|---|
| Text.Spaces | denops/@ddu-columns/filename.ts:104 | `" ".repeat(n)` has exactly `n` characters, and every one of them is a space |
| Text.CellsWidth | denops/@ddu-columns/filename.ts:105 | the stand-in for Vim's `strwidth()`: the sum of the cells of each character; its additivity, its value on spaces and on ASCII are the lemmas below |
| Text.StrwidthOf | denops/@ddu-columns/filename.ts:105 | `CellsWidth` for a given per-character width, passed where `getText` and `getLength` take `strwidth` |
| Text.CellsWidthAppend | denops/@ddu-columns/filename.ts:104-105 | the summed width of a concatenation is the sum of the widths of its parts |
| Text.CellsWidthSpaces | denops/@ddu-columns/filename.ts:106 | when a space is one cell, `n` padding spaces are `n` cells wide |
| Text.CellsWidthAscii | denops/@ddu-columns/filename.ts:40-43 | when printable ASCII is narrow, a printable ASCII string is as wide as it is long |
| Text.Utf16Length | denops/@ddu-columns/filename.ts:76 | `.length` counts between one and two code units per character |
| Text.Utf16LengthBmp | denops/@ddu-columns/filename.ts:76 | `.length` equals the number of characters if and only if every character lies in the Basic Multilingual Plane |
| Text.NatToString | denops/@ddu-columns/filename.ts:42 | a natural number's numeral is non-empty, all digits, and without a leading zero |
| Text.IntToString | denops/@ddu-columns/filename.ts:42 | the string an integral `iconWidth` is coerced to is non-empty printable ASCII, starting with `-` exactly when the number is negative |
| Text.NatToStringRoundTrip | denops/@ddu-columns/filename.ts:42 | reading a natural number's numeral back gives the number |
| Text.IntToStringRoundTrip | denops/@ddu-columns/filename.ts:42 | reading the coerced string back gives the integer, so no two widths share a string |
| Paths.StripTrailingSlashes | denops/@ddu-columns/filename.ts:59 | the first step of `basename`: drop the run of trailing separators; its shape is `StripShape` |
| Paths.LastSegment | denops/@ddu-columns/filename.ts:59 | the second step of `basename`: the part after the last separator; its shape is `LastSegmentShape` |
| Paths.StripShape | denops/@ddu-columns/filename.ts:59 | stripping keeps a prefix, removes only separators, and leaves no trailing separator |
| Paths.LastSegmentShape | denops/@ddu-columns/filename.ts:59 | the last segment is a separator-free suffix, preceded by a separator unless it is the whole string |
| Paths.Basename | denops/@ddu-columns/filename.ts:59 | a basename contains no separator |
| Paths.BasenameShape | denops/@ddu-columns/filename.ts:59 | `Basename` is the piece `IsBasename` describes: the last separator-free component, followed only by separators |
| Paths.BasenameEmpty | denops/@ddu-columns/filename.ts:59 | the basename is empty exactly when the path consists of separators only |
| Paths.BasenameCharacterized | denops/@ddu-columns/filename.ts:59 | a string is the piece `IsBasename` describes if and only if it is `Basename` of the path |
| Paths.BasenameOfName | denops/@ddu-columns/filename.ts:59 | a name without separators is its own basename |
| Paths.BasenameIgnoresTrailingSlash | denops/@ddu-columns/filename.ts:59 | a trailing separator does not change the basename |
| Paths.BasenameIdempotent | denops/@ddu-columns/filename.ts:59 | taking the basename twice changes nothing |
| Paths.BasenameExamples | denops/@ddu-columns/filename.ts:59 | `/a/bar` has basename `bar`; `a/b/` has basename `b` |
| FilenameColumn.Defaults | denops/@ddu-columns/filename.ts:114-121 | the default icons are `+`, `-` and `@`, each exactly `iconWidth` = 1 printable character long, and no highlight group is overridden |
| FilenameColumn.IsDirectory | denops/@ddu-columns/filename.ts:57 | an item is a directory when its `isTree` is true; an absent `isTree` counts as false |
| FilenameColumn.IsLink | denops/@ddu-columns/filename.ts:58 | an action is a link when its `isLink` is true; an absent `isLink` counts as false |
| FilenameColumn.RawPath | denops/@ddu-columns/filename.ts:59 | the action's path when present (even when empty), else the item's word |
| FilenameColumn.NameText | denops/@ddu-columns/filename.ts:59-60 | the basename of the raw path, with a `/` after a directory's; its shape is `NameTextShape` |
| FilenameColumn.Row | denops/@ddu-columns/filename.ts:104 | `level` spaces, the icon, one space and the name; the positions of the parts are `RowLayout` |
| FilenameColumn.ItemRow | denops/@ddu-columns/filename.ts:96-104 | the unpadded row of an item, built from its `Icon` and its `NameText` |
| FilenameColumn.ItemWidth | denops/@ddu-columns/filename.ts:38-43 | the width `getLength` reckons for one item, `level + 1 + strwidth(String(iconWidth) + (display ?? word))`, is more than the item's level |
| FilenameColumn.NameTextShape | denops/@ddu-columns/filename.ts:57-60 | the shown name has the basename of the item's path; a directory's name ends in exactly one separator, and any other name has none |
| FilenameColumn.Icon | denops/@ddu-columns/filename.ts:96-103 | the directory icon (expanded or collapsed) wins over the link icon; any other item shows a space |
| FilenameColumn.RowLayout | denops/@ddu-columns/filename.ts:104 | the row holds the indentation, the icon, one space and the name, at those positions |
| FilenameColumn.Highlights | denops/@ddu-columns/filename.ts:62-94 | directory and link rows get two spans and others none; the icon span starts at `startCol + level` and is `iconWidth` wide; the name span starts one cell after it and is as wide as the name's UTF-16 length; each span's group is the user's or the built-in one |
| FilenameColumn.GetText | denops/@ddu-columns/filename.ts:48-112 | no action throws; otherwise the result is text exactly when the row fits the column; a row that fits is padded with `endCol - startCol - strwidth(row)` spaces and carries the row's spans; a row that does not fit throws with that negative count |
| FilenameColumn.MaxOf | denops/@ddu-columns/filename.ts:45 | `Math.max` of a batch is `-Infinity` exactly for an empty batch; otherwise it bounds every width and equals one of them |
| FilenameColumn.Widths | denops/@ddu-columns/filename.ts:37-44 | one width per item, in order, each `level + 1 + strwidth(String(iconWidth) + (display ?? word))` |
| FilenameColumn.GetLength | denops/@ddu-columns/filename.ts:32-46 | the column width is `-Infinity` exactly for an empty batch; otherwise it is at least every item's width, equal to one of them, and more than every item's level |
| FilenameColumnProperties.RowFillsColumn | denops/@ddu-columns/filename.ts:104-110 | with summed widths and a one-cell space, `getText` succeeds exactly when the row fits, and its text then fills the column exactly |
| FilenameColumnProperties.RowSpans | denops/@ddu-columns/filename.ts:62-104 | when the icon is `iconWidth` long and the name lies in the Basic Multilingual Plane, the two spans of a directory or link row cover its icon and its name, in order, and the name span ends where the row ends |
| FilenameColumnProperties.SpansCoverIconAndName | denops/@ddu-columns/filename.ts:62-111 | under the same conditions, the spans cover exactly the icon and the name in the padded text that `getText` returns |
| FilenameColumnProperties.DefaultsUseBuiltinGroups | denops/@ddu-columns/filename.ts:62-94 | with the default parameters, directory spans use `Special` and `Directory`, and link spans use `Comment` |
| FilenameColumnProperties.DirectoryTakesPrecedence | denops/@ddu-columns/filename.ts:62-104 | a directory's row shows the directory icon after its indentation and has no link span, even when the item is also a link |
| FilenameColumnProperties.LengthMonotone | denops/@ddu-columns/filename.ts:37-45 | a batch whose items are each at least as wide as in another batch needs a column at least as wide |
| FilenameColumnProperties.LengthGrowsWithLevel | denops/@ddu-columns/filename.ts:37-45 | indenting one item further never narrows the column |
| FilenameColumnProperties.ItemWidthNarrow | denops/@ddu-columns/filename.ts:39-43 | with narrow ASCII, an item's width is its level, one cell, the digits of `iconWidth`, and the width of its display text |
| FilenameColumnProperties.DisplayGrows | denops/@ddu-columns/filename.ts:39-43 | for any per-character width, lengthening an item's display text never narrows that item |
| FilenameColumnProperties.LengthGrowsWithName | denops/@ddu-columns/filename.ts:37-45 | for any per-character width, wide characters included, lengthening one item's display text never narrows the column |
| FilenameColumnProperties.RowWidth | denops/@ddu-columns/filename.ts:104-105 | a row is as wide as its indentation, its icon, one space and its name |
| FilenameColumnProperties.BareRowWidth | denops/@ddu-columns/filename.ts:57-105 | with the defaults, widths summed per character and narrow ASCII, the row of an item named by a bare word, with no display text and no path, is `level + 2` cells plus the word, plus one for a directory's `/` |
| FilenameColumnProperties.BareLength | denops/@ddu-columns/filename.ts:37-45 | with the defaults, summed widths and narrow ASCII, the width `getLength` gives such an item (bare word, no display text) is `level + 2` cells plus the word |
| FilenameColumnProperties.BareFileRowFitsLength | denops/@ddu-columns/filename.ts:37-110 | with the defaults, summed widths and narrow ASCII, a plain file with a bare word, no display text and no path, rendered at the width `getLength` gives, is its unpadded row, with no spans |
| FilenameColumnProperties.BareDirectoryRowOverflowsLength | denops/@ddu-columns/filename.ts:37-110 | with the defaults, summed widths and narrow ASCII, a directory with a bare word, no display text and no path, rendered at the width `getLength` gives, throws, because the count is -1 |
| FilenameColumnProperties.FileExample | denops/@ddu-columns/filename.ts:96-111 | a top-level plain file `foo.txt`, with the defaults, in a 10-cell column, renders as `"  foo.txt "` with no spans |
| FilenameColumnProperties.DirectoryExample | denops/@ddu-columns/filename.ts:57-111 | a collapsed directory at level 1 with path `/a/bar`, with the defaults, in a 12-cell column, renders as `" + bar/     "` with a `Special` span at column 1 (width 1) and a `Directory` span at column 3 (width 4) |

## Left out

- The denops RPC plumbing, `async`/`await` and `Promise.all`: every call is modelled as a value. The order in which `strwidth` calls complete does not affect the results.
- Vim's `strwidth()` itself: its character-width tables (East Asian width, `ambiwidth`, emoji) are not modelled. It is a parameter, and the lemmas that need it take a per-character width.
- The Windows variant of `basename`: only the POSIX variant is modelled, with `/` as the only separator.
- JavaScript numbers are modelled as integers. `NaN`, infinities and fractional values of `iconWidth`, `startCol` or `endCol` are not modelled. `String(iconWidth)` covers integers only.
- Text.IntToStringRoundTrip: holds for the model's unbounded integers only. JavaScript writes integers from 1e21 up in exponent notation (`"1e+21"`), and cannot tell integers past 2^53 apart, so for such an `iconWidth` the decimal numeral of the model is not what `String` gives.
- The registration of the column with ddu (`BaseColumn`, type parameters): it carries no behaviour of the column.
- The action's `isDirectory` field: the column never reads it.
- `__level` is a natural number, as ddu sets it.
- FilenameColumnProperties.RowSpans and FilenameColumnProperties.SpansCoverIconAndName assume an icon exactly `iconWidth` characters long and a name inside the Basic Multilingual Plane. Otherwise the spans, which count UTF-16 units, do not line up with characters. `Highlights` and `GetText` state the spans for every input.
- FilenameColumnProperties.FileExample and FilenameColumnProperties.DirectoryExample take the row's display width as a hypothesis, because that width comes from Vim.
