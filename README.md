# Ferris cheatsheet: layer extraction and key decoding

This project models the core of a keyboard cheatsheet viewer: how it turns the
raw text of a ZMK keymap into named layers of binding tokens, how it looks those
layers up, and how it turns one binding token into a key definition and each
key name into a label to draw.

The model has these parts:

- `Strings` holds the JavaScript string primitives the core relies on:
  - the white-space set of the regular-expression class `\s` and of `trim`;
  - `split` on one character, with `join` as its inverse;
  - `trimStart`, `trimEnd` and `trim`.
- `RegexScan` describes a global regular expression driven by `exec` until it returns `null`:
  - `Exec` is one call: the leftmost match at or after `lastIndex`.
  - `Scan` is the whole loop.
  - `IsScan` is an independent description of what the loop finds: matches in order, none overlapping, none skipped. `ScanSpec` and `ScanUnique` show that `Scan` is the one sequence `IsScan` allows.
- `Layout` covers `src/layout.ts`:
  - The pattern `([A-Z_]+) {\s*bindings = <\s*([^>]+)>;\s*};` becomes an explicit matcher, `MatchAt`, tried at one index.
  - The bindings blob becomes keys through split on `&`, trim, dropping blank pieces and putting `&` back.
  - The `LayerMap` class builds its layer list in place with an `exec` loop, and `GetFull` looks a layer up.
  - Its partner is a generator of keymap text. `Document` lays out well-formed blocks, each behind a separator, and `ExtractDocument` proves that the extractor gives back exactly the layers those blocks declare, in order.
  - A separator is any text that never writes a space followed by `{` and does not end in a name character. White space, `//` comment lines and `/* */` comment lines, all of which the bundled keymap puts between its layers, are separators.
- `LayerView` covers the `findIndex` lookup of `src/Layer.tsx`.
- `Key` covers `src/Key.tsx`:
  - `Decode` is `keyStringToDef`. Its error paths are a `Result`: an unknown behaviour, and `&out` with no argument.
  - `ToLabel` is `toLabel`, with the two lookup tables as maps. A React node is a `Label` value.

Some behaviours of the code are easy to misread. The model follows the code:

- **Missing primary.** The primary output can be missing. For example, `&kp` with no argument leaves it `undefined`, modelled as `None`.
- **Number-row rule.** It takes any two-character name that starts with `N`, not only `N0` to `N9`. For example, `NX` is drawn as `X`. The model counts characters where the source counts UTF-16 code units; see "## Left out".
- **Duplicate layer names.** Nothing keeps layer names unique. `GetFull` and `FindIndex` report the first layer with the name.

## Model

| member | source | states |
|---|---|---|
| Strings.Split | src/layout.ts:98 | `split` on one character gives at least one piece, and no piece holds the separator |
| Strings.JoinSplit | src/layout.ts:98 | joining the pieces of a split with the separator gives back the original string: the split loses nothing |
| Strings.SplitJoin | src/Key.tsx:42 | splitting a join of separator-free words gives back exactly those words |
| Strings.TrimStart | src/layout.ts:98 | `trimStart` never lengthens the string; `TrimStartSpec` says what it keeps |
| Strings.TrimEnd | src/layout.ts:98 | `trimEnd` never lengthens the string; `TrimEndSpec` says what it keeps |
| Strings.Trim | src/layout.ts:98 | `trim` never lengthens the string; `TrimSlice` and `TrimEnds` say what it keeps |
| Strings.TrimStartSpec | src/layout.ts:98 | `trimStart` keeps a suffix, drops only white space, and leaves no leading white space |
| Strings.TrimEndSpec | src/layout.ts:98 | `trimEnd` keeps a prefix, drops only white space, and leaves no trailing white space |
| Strings.TrimSlice | src/layout.ts:98 | `trim` keeps the stretch between the leading and the trailing white space |
| Strings.TrimEnds | src/layout.ts:98 | what `trim` keeps neither starts nor ends with white space |
| Strings.TrimEmpty | src/layout.ts:98 | `trim` leaves the empty string exactly when the piece is all white space; this is the blank test of `.filter(c => c)` |
| Strings.TrimSpacePrefix | src/layout.ts:98 | leading white space does not change what `trim` keeps |
| Strings.TrimTrailingSpace | src/layout.ts:98 | text with non-white ends followed by white space trims back to itself |
| RegexScan.ExecSpec | src/layout.ts:96 | `Exec`, one `exec` from `lastIndex` returns the leftmost match at or after it, and returns none only when no index from there on starts a match |
| RegexScan.ExecSkip | src/layout.ts:96 | `exec` gives the same answer from any index in a stretch where no match starts |
| RegexScan.ExecFirst | src/layout.ts:96 | when no match starts before a match at `p`, `exec` returns that match |
| RegexScan.ScanCons | src/layout.ts:96-99 | after a hit, the loop's matches are that hit followed by the matches from its end on |
| RegexScan.ExecChainTail | src/layout.ts:96-99 | a chain of `exec` hits, each from where the one before ended and then a miss, is still a chain after its first hit |
| RegexScan.ScanChain | src/layout.ts:96-99 | such a chain of `exec` hits is exactly what the loop sees |
| RegexScan.ScanSpec | src/layout.ts:96-99 | `Scan`, the `exec` loop: the matches the `exec` loop sees are in order, each starting at or after the end of the one before, with no match skipped before, between or after them |
| RegexScan.ScanUnique | src/layout.ts:96-99 | only one sequence of matches meets that description, so it is the loop's sequence |
| RegexScan.ScanEmpty | src/layout.ts:96 | the loop finds nothing exactly when no index starts a match |
| Layout.SkipWhile | src/layout.ts:94 | a greedy run stops inside the text, at a character outside the class or at the end |
| Layout.SkipWhileRun | src/layout.ts:94 | every character a greedy run passes over is in the class |
| Layout.Captured | src/layout.ts:94 | the blob group is never longer than the text between `<` and `>`, and is not empty when that text is not |
| Layout.CapturedSuffix | src/layout.ts:94 | the blob group is a non-empty end of the text between `<` and `>`, with only white space in front of it, as `\s*([^>]+)` backtracks |
| Layout.NameGroup | src/layout.ts:94 | the name group is a non-empty `[A-Z_]` run |
| Layout.MatchAtAnchored | src/layout.ts:94 | `MatchAt`, the pattern tried at one index: every match the pattern reports starts where it is tried, is not empty and ends inside the text |
| Layout.MatchFrame | src/layout.ts:94 | a well-formed block written at an index matches there, with its name, its blob and its full length |
| Layout.MatchAtSound | src/layout.ts:94 | conversely, whatever matches at an index is a well-formed block written there |
| Layout.MatchGroups | src/layout.ts:94 | the name group of every match is a non-empty `[A-Z_]` run, and the blob group holds no `>` |
| Layout.MatchOpen | src/layout.ts:94 | every match starts with a run of name characters that a space and `{` follow |
| Layout.NoMatchAtNonName | src/layout.ts:94 | no match starts at the end of the text or at a character that cannot begin a name |
| Layout.Keys | src/layout.ts:98 | every key kept is `&` followed by a trimmed, non-blank piece with no other `&` |
| Layout.Tokens | src/layout.ts:98 | the trim, filter and prefix steps keep at most one key per piece, and every key is well formed |
| Layout.KeysOfRender | src/layout.ts:98 | binding tokens written with white space between them come back as exactly those tokens, in order, each with its `&` |
| Layout.KeysSpacePrefix | src/layout.ts:98 | white space in front of a blob does not change its keys |
| Layout.KeysAllSpace | src/layout.ts:98 | a blob of white space has no keys |
| Layout.CapturedKeys | src/layout.ts:94-98 | what the `\s*` before the blob group backtracks over does not change the keys, and the group captures the blob whole when the blob starts with a non-white character |
| Layout.ExtractShapes | src/layout.ts:94-98 | every layer's name is a non-empty `[A-Z_]` run, and every key starts with `&` and is trimmed |
| Layout.SpaceSeparates | src/layout.ts:94 | white space is a separator |
| Layout.CommentSeparates | src/layout.ts:94 | a `//` comment line is a separator whenever its text writes no space followed by `{` |
| Layout.BlockCommentSeparates | src/layout.ts:56 | a `/* */` comment line is a separator whenever its text writes no space followed by `{` |
| Layout.LeadChars | src/layout.ts:94 | a separator written in the text writes no space followed by `{`, and its last character is no name character |
| Layout.LeadQuiet | src/layout.ts:94-96 | no match starts inside the separator in front of a block |
| Layout.ExecSection | src/layout.ts:96 | from the start of the separator in front of a block, `exec` returns that block's match |
| Layout.TrailingNone | src/layout.ts:96 | `exec` returns null once no space followed by `{` is left |
| Layout.ScanTrailing | src/layout.ts:96 | the loop finds nothing in text that writes no space followed by `{` |
| Layout.ExecAtBlock | src/layout.ts:96 | from where each of a series of written blocks starts, `exec` returns that block's match |
| Layout.ExecAfterBlocks | src/layout.ts:96 | after the last written block, `exec` returns null |
| Layout.ScanMatches | src/layout.ts:96-99 | scanning from where a series of blocks is written finds exactly their matches, in order |
| Layout.SectionLayers | src/layout.ts:98 | those matches push exactly the layers the blocks declare, each with its name and the keys of its blob |
| Layout.ScanSections | src/layout.ts:96-98 | scanning from where a series of blocks is written, each behind a separator, yields exactly the layers they declare, in order |
| Layout.ExtractDocument | src/layout.ts:93-100 | keymap text made of well-formed blocks, each behind a separator such as white space or `//` comment lines, yields one layer per block, in the order written, with its name and its keys: extraction inverts the layout |
| Layout.ExtractWritten | src/layout.ts:93-100 | text in which the blocks are written from its start yields exactly their layers |
| Layout.ExtractEmpty | src/layout.ts:93-100 | the extractor yields no layer exactly when no index starts a match |
| Layout.WithoutBracket | src/layout.ts:94 | text with no `>` yields no layers |
| Layout.ScanStep | src/layout.ts:96-98 | each `exec` hit is the next entry of the scan, and `lastIndex` moves strictly forward |
| Layout.ScanDone | src/layout.ts:96 | when `exec` returns null, the layers pushed so far are all the layers |
| Layout.Find | src/layout.ts:103 | `find` reports nothing exactly when no layer has the name |
| Layout.FindFirst | src/layout.ts:103 | `find` reports nothing exactly when no layer has the name; otherwise it reports the keys of the lowest-index layer with the name |
| Layout.LayerMap.constructor | src/layout.ts:93-100 | the layer list the `exec` loop pushes, one layer per match and in match order, is `Extract(raw)`, the extractor's result |
| Layout.LayerMap.GetFull | src/layout.ts:102-104 | `null` exactly when no layer has the name; otherwise the keys of the first layer with it |
| Layout.ExtractOne | src/layout.ts:93-100 | one block behind a separator, followed by text that writes no space followed by `{`, yields exactly its layer |
| Layout.ExtractBehindComment | src/layout.ts:6-15 | a block behind a `//` comment line, as the bundled keymap writes its layers, yields exactly its layer |
| Layout.ExtractExample | src/layout.ts:93-100 | `BASE {\nbindings = <\n&kp Q &mt LSFT S\n>;\n};` yields the layer `BASE` with the keys `&kp Q` and `&mt LSFT S` |
| Layout.ExtractBlankExample | src/layout.ts:93-100 | a block whose bindings are only white space yields its layer with no keys |
| LayerView.FindIndex | src/Layer.tsx:80 | -1 exactly when no layer has the name; otherwise the lowest index with the name |
| LayerView.IndexAndKeys | src/Layer.tsx:80-85 | the index the view shows and the keys it draws come from the same layer, and one is missing exactly when the other is |
| Key.BehaviorNames | src/Key.tsx:43-55 | the switch selects a case exactly for that case's behaviour name |
| Key.Fields | src/Key.tsx:42 | for a token written as space-free words joined by single spaces, each destructured field is the word at its position, and `undefined` past the last |
| Key.RemoveFirstAt | src/Key.tsx:48 | `replace` with a string pattern cuts out its first occurrence and keeps both sides |
| Key.RemoveFirstAbsent | src/Key.tsx:48 | `replace` changes nothing where the pattern does not occur |
| Key.Dispatch | src/Key.tsx:43-56 | the switch fails exactly for `&out` with no argument, and reports the token |
| Key.Decode | src/Key.tsx:41-57 | a failure carries the token, and an unknown-behaviour failure names a behaviour no case matches |
| Key.DispatchRoles | src/Key.tsx:44-54 | each case of the switch sets at most one role, sets a hold output only for `&mt` and `&lt`, and gives the blank keys an empty primary |
| Key.DecodeRoles | src/Key.tsx:41-57 | a decoded key plays at most one role, has a hold output only when it is `&mt` or `&lt`, and is blank when transparent or disabled |
| Key.DecodeFails | src/Key.tsx:41-57 | decoding fails exactly for an unknown behaviour name, reported with the token and its three fields, and for `&out` with nothing after it |
| Key.DecodeTap | src/Key.tsx:44-46 | `&kp X` and `&sk X` send `X` on tap and play no role |
| Key.DecodeModTap | src/Key.tsx:45 | `&mt H X` sends `X` on tap and `H` on hold |
| Key.DecodeBluetooth | src/Key.tsx:47 | `&bt A` shows `A`, and its mode is `clear` exactly when `A` is `BT_CLR`, `select` otherwise |
| Key.DecodeBluetoothArg | src/Key.tsx:47 | `&bt A X` shows the second argument `X`, and its mode still comes from `A` |
| Key.DecodeOutput | src/Key.tsx:48 | `&out X` shows `X` with its first `OUT_` removed, in mode `out` |
| Key.DecodeTransparent | src/Key.tsx:49 | `&trans` is transparent, with an empty primary |
| Key.DecodeNone | src/Key.tsx:50 | `&none` is disabled, with an empty primary |
| Key.DecodeLayerTap | src/Key.tsx:51 | `&lt L X` sends `X` on tap and holds layer `L`, in layer mode `hold` |
| Key.DecodeToLayer | src/Key.tsx:52 | `&to L` shows `L`, in layer mode `primary` |
| Key.DecodeStickyLayer | src/Key.tsx:53 | `&sl L` shows `L`, in layer mode `primary-sticky` |
| Key.DecodeMomentaryLayer | src/Key.tsx:54 | `&mo L` shows `L`, in layer mode `primary-hold` |
| Key.DecodeProfileExample | src/Key.tsx:47 | `&bt BT_SEL 0` shows `0` in mode `select` |
| Key.DecodeOutputExample | src/Key.tsx:48 | `&out OUT_BLE` shows `BLE` in mode `out` |
| Key.DecodeUnknownExample | src/Key.tsx:55 | `&xyz A` is an error that carries the token, `&xyz`, `A` and a missing second argument |
| Key.TablesTruthy | src/Key.tsx:62-79 | every glyph in the substitution table is a non-empty string, so the table's truthiness test is a membership test |
| Key.ToLabel | src/Key.tsx:59-123 | a plain-string label comes only from a string, and is never longer than it |
| Key.LabelNonString | src/Key.tsx:60 | a node that is not a string comes back unchanged |
| Key.LabelKinds | src/Key.tsx:100-120 | each label kind comes from exactly one rule, and every earlier rule takes precedence: a glyph exactly for a substitution-table name; an icon exactly for an icon-table name outside it; a keypad label exactly for a `KP_` name in neither table, wrapping the label of the rest; a composite exactly for `BLE`, `USB`, `DEL` or `ENTER` when no earlier rule applies |
| Key.LabelText | src/Key.tsx:104-122 | a name comes back as itself exactly when no rule applies; the only other plain-text result is the second character of a two-character `N` name |
| Key.KeypadDepthBound | src/Key.tsx:106-107 | the keypad recursion runs on ever shorter names: each nested `#` marker accounts for three characters |
| Key.LabelDigitExample | src/Key.tsx:104-105 | `N7` is drawn as `7` |
| Key.LabelKeypadExample | src/Key.tsx:106-107 | `KP_N7` is drawn as the `#` marker beside `7` |
| Key.LabelNumLockExample | src/Key.tsx:77 | `KP_NUM` is drawn from the substitution table, not by the keypad rule |
| Key.LabelUnknownExample | src/Key.tsx:121-122 | a name no rule knows is drawn as itself |
| Key.LabelBleExample | src/Key.tsx:111-112 | `BLE`, which `&out OUT_BLE` decodes to, is drawn as the Bluetooth toggle |

## Left out

- Rendering is not modelled: React elements, styles, key geometry, and the layout and position tables of `src/Layer.tsx`. A node `toLabel` builds is a `Label` value, and an icon is its FontAwesome name.
- The table lookups in `toLabel` are modelled as map membership. The source indexes plain objects, so an inherited name such as `constructor` or `toString` would also pass the truthiness test. Keymap key names never take those forms.
- `&out` with no argument: the source calls `replace` on `undefined` and throws a `TypeError`. The model returns the `NoOutputArgument` error value rather than requiring an argument of the caller.
- The guard `next.length !== 3 || typeof next[1] !== 'string'` in src/layout.ts:97 never fires for this pattern: every match has three entries and a matched name group. The model leaves it out.
- After the loop, `exec` resets `lastIndex` to 0. This leaves no trace in the layer table and is not modelled.
- The bundled keymap text `LAYERS_RAW` and the module-level `layers` instance are data, not logic. The model does not evaluate them.
- `\s` and `trim` use the ECMAScript white-space set on UTF-16 code units. The model uses the same set over Dafny characters and does not model surrogate pairs.
- ToLabel: the number-row test `key.length === 2` and `key.substring(1)` count UTF-16 code units; the model counts characters. The two differ for `N` followed by a character outside the Basic Multilingual Plane: the source passes such a name through unchanged, the model draws the character. Keymap key names are ASCII.
- ScanSections: the round trip covers blocks behind separators, not arbitrary text between blocks. Arbitrary text cannot be allowed: in `A {bindings = <x` followed by a line `BASE {bindings = <&kp Q>;};`, the first block is left open, its `[^>]+` runs on into the second, and the text yields only layer `A`.
- `replace` (src/Key.tsx:48) is modelled by `RemoveFirst`, which has no contract of its own; `RemoveFirstAt` and `RemoveFirstAbsent` state what it does.
