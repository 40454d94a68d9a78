# md-outline-creator, modelled in Dafny

md-outline-creator reads Markdown files and writes one Markdown document that
holds the outline of all of them. It groups the files by folder and gives one
section per file. Each section lists every heading of the file as a link to
its anchor, indented by the heading's depth.

This project models the string and tree logic of that tool and proves
properties of it:

- `md_util.dfy` (module `MdUtil`): the outline pipeline of `src/md.util.ts`.
  - `encodeRenderTree` rebuilds a render tree from the flat markdown-it token
    list. It is an imperative method with an explicit stack, proved against a
    fold over the tokens. The fold is then proved equal to a recursive-descent
    reading of every well-formed token stream.
  - `getHeadingList` and `createHeadingNode` pick out the headings.
  - `encodeHeadingTree` nests the headings with its never-popped stack. It is
    an imperative method over an arena of slots, proved against a
    specification arena.
- `md_heading_tree.dfy` (module `HeadingTree`): what that nesting
  guarantees.
  - Every child has a larger level than its parent.
  - Reading the tree in pre-order gives back the input, up to the first
    heading of level 0.
  - The levels 1, 3, 2 give one heading with two children.
  - Equal levels give siblings.
  - A stack that pops the entries whose level is not smaller would pick the
    very same parents.
- `md_outline_creator.dfy` (module `MdOutlineCreator`): the options and
  their merge, the choice of hash formatter, and the bullet list of a heading
  tree.
  - Grouping of files by folder: `groupFileInfoList` as written, an
    imperative loop over a dictionary, and the grouping it intends.
  - The file, folder and document sections, with the folder and document
    loops as methods.
- `hash_util.dfy` (module `HashUtil`) and `formatter_util.dfy` (module
  `FormatterUtil`): the GitHub anchor slug, the identity formatters, and the
  bracket-escaping title formatter.
  - For the title formatter, the chain of four regular-expression
    replacements is modelled as the regex engine scans.
  - That chain is proved equal to a simple meaning: one backslash before each
    bracket.
- `path_util.dfy` (module `PathUtil`): `splitPath`, `decodeFilePath` and
  `decodeFilePaths`. The Node `path` functions are uninterpreted function
  values.
- `js.dfy` (module `Js`) and `js_object.dfy` (module `JsObject`): the
  JavaScript built-ins these rely on, among them `Object.keys`.
  - The built-ins: `split`, `join`, `repeat`, `replace` with a string
    pattern, and `Number` of a digit string.
  - `Object.keys` lists array-index keys first in ascending order (section
    10.1.11.1 of ECMA-262), then the other keys in insertion order.

A thrown `TypeError` is modelled as a `Failure` value of `Js.Result`.

## Model

| member | source | states |
|---|---|---|
| MdUtil.SelfClosingEntry | src/md.util.ts:124-126 | a token that neither opens nor closes contributes its content if non-empty, else (non-empty tag) a node built from its children, else the empty string; a failure only comes from the children |
| MdUtil.EncodeRenderTree | src/md.util.ts:108-129 | the loop with its explicit stack returns exactly what the token fold `RenderTree` gives, including the `TypeError` when the stack has been emptied |
| MdUtil.CreateRenderNode | src/md.util.ts:148-150 | the node has the given tag and the render tree of the children as content; it fails exactly when that tree fails |
| MdUtil.EmptyTokenList | src/md.util.ts:108-128 | an empty token list gives an empty render tree |
| MdUtil.OpenStep | src/md.util.ts:112-120 | an open token pushes a fresh empty node with the token's tag, which becomes the last entry of the node that was on top |
| MdUtil.CloseStep | src/md.util.ts:121-123 | a close token only pops: no node left on the stack changes and the root's content is unchanged |
| MdUtil.OtherStep | src/md.util.ts:112-126 | any other token appends exactly one entry to the top node and keeps the stack height; on an empty stack it throws |
| MdUtil.OpenIsNotClose | src/md.util.ts:113-115 | no token is both an open and a close token |
| MdUtil.ViewPop | src/md.util.ts:117-122 | hanging the top frame under the one below it does not change the tree seen from the root (the aliasing of the pushed node) |
| MdUtil.RunDepth | src/md.util.ts:110-127 | when closes never outrun opens, the stack height is the start height plus opens minus closes, and only a node built from children can fail |
| MdUtil.RenderDepth | src/md.util.ts:110-127 | from the initial stack the height is 1 + opens - closes, and a balanced stream leaves only the root |
| MdUtil.WellFormedRenderTree | src/md.util.ts:108-129 | on a stream in which every open token is paired with a close token, the loop builds exactly the tree the pairing describes |
| MdUtil.GetHeadingList | src/md.util.ts:60-65 | the result holds exactly the top-level nodes whose tag is `h` and digits, never more entries than the input |
| MdUtil.GetHeadingListAppend | src/md.util.ts:60-65 | filtering distributes over concatenation, so the input order is kept |
| MdUtil.GetHeadingListSingle | src/md.util.ts:61-64 | one entry is kept exactly when it is a heading node; text runs and other nodes are dropped, and children are not searched |
| MdUtil.HeadingLevel | src/md.util.ts:96 | the level is the decimal value of the digits after the `h` |
| MdUtil.CreateHeadingNode | src/md.util.ts:94-101 | level from the tag, no children, and the text of a node holding one text run is that run |
| MdUtil.FlatHeadings | src/md.util.ts:78-79 | one heading node per heading, in order |
| MdUtil.LastBelow | src/md.util.ts:81 | the filter-then-pop picks the last earlier stack entry whose level is smaller, and none is left when no entry is smaller |
| MdUtil.ParentSlot | src/md.util.ts:81-84 | a heading's parent comes before it and has a smaller level |
| MdUtil.FilterBelowLast | src/md.util.ts:81 | on the never-popped stack, the last element of the filtered stack is `LastBelow` |
| MdUtil.ChildSlots | src/md.util.ts:80-85 | every listed child of a slot lies in the range and has that slot as its parent |
| MdUtil.ChildSlotsComplete | src/md.util.ts:80-85 | every slot in the range whose parent is the slot is listed |
| MdUtil.ChildSlotsIncreasing | src/md.util.ts:83 | children are listed in the order they were pushed |
| MdUtil.AttachStep | src/md.util.ts:82-85 | appending a heading to its parent keeps every slot's children equal to its child slots so far |
| MdUtil.EncodeHeadingTree | src/md.util.ts:71-88 | the loop over the arena returns exactly the root's children of the specification arena |
| MdUtil.GetMdOutline | src/md.util.ts:47-53 | the outline of a token list is the render tree, its headings and their nesting, failing as the render tree does |
| HeadingTree.HeadingsKeptUpToFirstZero | src/md.util.ts:72-87 | the pre-order of the result is the input up to, not including, the first heading of level 0 |
| HeadingTree.PreOrderIsInputOrder | src/md.util.ts:77-87 | with every level at least 1, pre-order flattening gives the input back |
| HeadingTree.HeadingListPreOrder | src/md.util.ts:71-88 | for a heading list none of whose tags has level 0 (`h0`, `h00`), every heading is kept once, in order |
| HeadingTree.ForestLevels | src/md.util.ts:81-84 | every heading in the result has level at least 1, and every child has a larger level than its parent |
| HeadingTree.LevelZeroHasNoParent | src/md.util.ts:73-84 | a heading of level 0 finds no parent, because the root's level is 0 |
| HeadingTree.DeeperThenShallower | src/md.util.ts:77-87 | levels 1, 3, 2 give one top heading whose children are the second and third, in order |
| HeadingTree.EqualLevelsAreSiblings | src/md.util.ts:77-87 | two headings of the same level are siblings |
| HeadingTree.MonoStackUndominated | src/md.util.ts:77-86 | a stack that pops the entries whose level is not smaller holds exactly the slots no later slot dominates, in increasing order |
| HeadingTree.MonoParentIsParentSlot | src/md.util.ts:80-84 | that popping stack gives every heading the same parent as the never-popped stack |
| MdOutlineCreator.MergeOptions | src/MdOutlineCreator.ts:43-49 | every option the user gives is kept, every other option takes its default, and no option is left absent |
| MdOutlineCreator.MergeNoOptions | src/MdOutlineCreator.ts:26-31 | without user options the defaults are used: empty files ignored, GitHub anchors |
| MdOutlineCreator.GetHashFormatter | src/MdOutlineCreator.ts:258-266 | `'GitHub'` selects the GitHub slug, a function is used as it is, and any other value gives the identity |
| MdOutlineCreator.DefaultHashRoute | src/MdOutlineCreator.ts:250-253 | unless the user chose a formatter, an anchor is the GitHub slug of the heading text and holds no white space |
| MdOutlineCreator.OutlineListIsLines | src/MdOutlineCreator.ts:273-282 | the list is one bullet per heading, in pre-order, each indented by its depth below the starting tab level; siblings are joined with nothing between them |
| MdOutlineCreator.OutlineItemIsLines | src/MdOutlineCreator.ts:274-280 | a heading gives its own bullet followed by its children's bullets one tab deeper |
| MdOutlineCreator.OutlineListEmpty | src/MdOutlineCreator.ts:273-282 | the list is empty exactly when there are no headings |
| MdOutlineCreator.EntriesArePreOrder | src/MdOutlineCreator.ts:274-281 | the bullets name the headings in the tree's pre-order |
| MdOutlineCreator.OutlineInDocumentOrder | src/MdOutlineCreator.ts:273-282 | for the heading tree of a document whose levels are all 1 or more, the bullets name every heading once, in document order |
| MdOutlineCreator.GetOutlineInfo | src/MdOutlineCreator.ts:241-244 | a file's outline is its entry in the outline map, or none when it has no entry |
| MdOutlineCreator.CreateFileOutline | src/MdOutlineCreator.ts:288-293 | the section is empty exactly when the file has no headings and empty files are ignored; otherwise it starts with a `##` heading line |
| MdOutlineCreator.CreateFolderOutline | src/MdOutlineCreator.ts:298-306 | the loop returns the file sections in order after a new line, or nothing when they are all empty |
| MdOutlineCreator.FolderOutlineEmpty | src/MdOutlineCreator.ts:298-306 | a folder's outline is empty exactly when every one of its file sections is |
| MdOutlineCreator.FileOutlinesEmpty | src/MdOutlineCreator.ts:301-304 | the concatenated sections are empty exactly when each one is |
| MdOutlineCreator.CreateDocContent | src/MdOutlineCreator.ts:317-324 | throws exactly when `groupFileInfoList` does, on a folder key inherited from `Object.prototype`; otherwise the loop returns the folder outlines one after the other, in group order |
| MdOutlineCreator.DocContentEmpty | src/MdOutlineCreator.ts:317-324 | the document is empty exactly when no file has a heading and, unless there are no files, empty files are ignored |
| MdOutlineCreator.FoldersEmpty | src/MdOutlineCreator.ts:318-323 | for folders that partition the file list, the outlines are empty exactly when there is nothing to list |
| MdOutlineCreator.FolderNameInjective | src/MdOutlineCreator.ts:221 | two files have the same group key exactly when they have the same folder names |
| MdOutlineCreator.FolderKeysSpec | src/MdOutlineCreator.ts:220-228 | each key is stored once and the keys are exactly the files' keys |
| MdOutlineCreator.FilesInSpec | src/MdOutlineCreator.ts:220-228 | a group holds exactly the listed files with its key |
| MdOutlineCreator.OrderedKeys | src/MdOutlineCreator.ts:229 | the keys in `Object.keys` order are distinct and are exactly the files' keys |
| MdOutlineCreator.GroupFoldersNamesDistinct | src/MdOutlineCreator.ts:229-234 | no two groups have the same name |
| MdOutlineCreator.GroupFoldersFiles | src/MdOutlineCreator.ts:219-234 | each group holds exactly the files with its key, in list order, and is not empty |
| MdOutlineCreator.GroupFoldersMembers | src/MdOutlineCreator.ts:219-234 | every file of a group is a listed file whose key is the group's name |
| MdOutlineCreator.GroupFoldersCover | src/MdOutlineCreator.ts:219-234 | every listed file is in the group named by its key |
| MdOutlineCreator.FileInOneFolder | src/MdOutlineCreator.ts:219-234 | a file is in exactly one group |
| MdOutlineCreator.GroupFileInfoList | src/MdOutlineCreator.ts:218-235 | the loop throws exactly when some file's key names a member inherited from `Object.prototype`; otherwise it returns the intended grouping |
| MdOutlineCreator.GroupsOf | src/MdOutlineCreator.ts:229-234 | one group per key, in key order, holding what the dictionary stores |
| MdOutlineCreator.StepExisting | src/MdOutlineCreator.ts:222-224 | a file whose key is stored joins that group, and the dictionary keeps matching the files seen |
| MdOutlineCreator.StepNew | src/MdOutlineCreator.ts:225-227 | a file with a new key starts a group and adds the key at the end of the insertion order |
| MdOutlineCreator.FinalGroups | src/MdOutlineCreator.ts:229-234 | after the loop, reading the dictionary in `Object.keys` order gives the intended grouping |
| MdOutlineCreator.InheritedFolderName | src/MdOutlineCreator.ts:219-224 | a file in a folder named `constructor` has an inherited key, while the intended grouping has one group `constructor` with that file |
| JsObject.OwnKeysOrder | src/MdOutlineCreator.ts:229 | `Object.keys` lists each added key once per insertion: array indices first in ascending order, then the other keys in insertion order |
| JsObject.OwnKeysDistinct | src/MdOutlineCreator.ts:229 | keys added once each are listed once each |
| JsObject.OwnKeysThree | src/MdOutlineCreator.ts:229 | an array index added after another key still comes first, and a smaller index comes before a larger one |
| JsObject.OwnKeysExample | src/MdOutlineCreator.ts:229 | the keys `b`, `10`, `2` added in that order come out as `2`, `10`, `b` |
| JsObject.SortByValueSpec | src/MdOutlineCreator.ts:229 | sorting the array-index keys keeps them all and puts them in ascending numeric order |
| JsObject.InsertSorted | src/MdOutlineCreator.ts:229 | inserting a key into a sorted list keeps it sorted |
| HashUtil.ToLowerAscii | src/hash.util.ts:9 | same length, each character lower-cased |
| HashUtil.ReplaceWhiteSpace | src/hash.util.ts:6-10 | same length, each white-space character replaced by one hyphen and the rest kept |
| HashUtil.RemoveInvalid | src/hash.util.ts:7-11 | the characters kept are exactly those of the input that are not dropped |
| HashUtil.RemoveInvalidAppend | src/hash.util.ts:7-11 | removal distributes over concatenation, so the kept characters stay in input order |
| HashUtil.RemoveInvalidSingle | src/hash.util.ts:7-11 | one character is dropped exactly when it is one of `_ ( ) . 、 *` |
| HashUtil.RemoveInvalidCount | src/hash.util.ts:7-11 | every kept character occurs as often as in the input, and a dropped one not at all |
| HashUtil.GithubHashFormatter | src/hash.util.ts:5-12 | the slug is no longer than the title and holds no white space and none of `_ ( ) . 、 *` |
| HashUtil.GithubHashFormatterIsSlug | src/hash.util.ts:8-11 | the three passes equal a one-pass, character-by-character slug |
| HashUtil.GithubHashFormatterAppend | src/hash.util.ts:8-11 | the slug of a concatenation is the concatenation of the slugs |
| HashUtil.HyphenPerWhiteSpace | src/hash.util.ts:6-10 | without dropped characters, the slug has the title's length and each white-space character becomes one hyphen at its own position; runs are not collapsed |
| HashUtil.GithubHashFormatterIdempotent | src/hash.util.ts:8-11 | applying the slug twice is applying it once |
| HashUtil.SlugIsLower | src/hash.util.ts:9 | the slug has no upper-case ASCII letter |
| HashUtil.HyphensBeforeRemoval | src/hash.util.ts:8-11 | `a . b` gives `a--b`: hyphens are put in before characters are dropped |
| HashUtil.WordsWithParens | src/hash.util.ts:8-11 | words separated by a space, with the last one in parentheses, give the lower-cased words joined by hyphens, as `Hello World (test)` gives `hello-world-test` |
| HashUtil.DefaultFormatter | src/hash.util.ts:19-21 | the identity |
| FormatterUtil.GithubHashFormatter | src/formatter.util.ts:5-12 | agrees with the slug of `hash.util.ts` on every input |
| FormatterUtil.DefaultHashFormatter | src/formatter.util.ts:19-21 | the identity, the same function as `defaultFormatter` of `hash.util.ts` |
| FormatterUtil.RegexReplaceIsEscapeRuns | src/formatter.util.ts:29 | one replacement pass turns every maximal run of backslashes before its bracket, the empty run included, into exactly one backslash |
| FormatterUtil.RegexAfterEscape | src/formatter.util.ts:29 | a further pass for a new bracket, on an escaped string, adds that bracket to the set escaped |
| FormatterUtil.DefaultTitleFormatterEscapes | src/formatter.util.ts:28-30 | the four chained replacements escape all four brackets at once, one backslash per bracket |
| FormatterUtil.EscapeKeepsOthers | src/formatter.util.ts:29 | only backslashes are added or removed: every other character is kept, in order |
| FormatterUtil.DefaultTitleFormatterCounts | src/formatter.util.ts:29 | every character other than a backslash, each bracket in particular, occurs as often as before |
| FormatterUtil.DefaultTitleFormatterEscapesOnce | src/formatter.util.ts:29 | in the result every bracket follows one backslash, itself not preceded by another |
| FormatterUtil.DefaultTitleFormatterIdempotent | src/formatter.util.ts:29 | formatting an already formatted title changes nothing |
| FormatterUtil.DefaultTitleFormatterNoBracket | src/formatter.util.ts:29 | a title without brackets is left as it is |
| FormatterUtil.EscapeExampleParens | src/formatter.util.ts:29 | unescaped parentheses around plain text get one backslash each |
| FormatterUtil.EscapeExampleRun | src/formatter.util.ts:29 | a run of two backslashes before a bracket shrinks to one, and a bare bracket gets one |
| PathUtil.NonEmpty | src/path.util.ts:60 | the empty strings are dropped and every non-empty one is kept |
| PathUtil.NonEmptyAppend | src/path.util.ts:60 | the filter distributes over concatenation, so the kept names stay in input order |
| PathUtil.NonEmptySingle | src/path.util.ts:60 | one string is dropped exactly when it is empty |
| PathUtil.NonEmptyCount | src/path.util.ts:60 | every non-empty string occurs as often as in the input, and the empty string not at all |
| PathUtil.SplitPath | src/path.util.ts:59-61 | no name is empty or holds the separator |
| PathUtil.SplitPathConcat | src/path.util.ts:60 | the names, put back together, are the input with every separator deleted |
| PathUtil.SplitPathJoin | src/path.util.ts:59-61 | folder names joined with the separator split back into the same names |
| PathUtil.DecodeFilePath | src/path.util.ts:87-95 | the path is kept, the file name is the parsed name, and the folders are non-empty names without a separator |
| PathUtil.DecodeAtBase | src/path.util.ts:92 | a file directly in the base folder has no folders |
| PathUtil.DecodeUnderBase | src/path.util.ts:92 | a file under `base/d1/.../dn` has the folders `d1, ..., dn` |
| PathUtil.DecodeBaseInside | src/path.util.ts:92 | the first occurrence of the resolved base is removed even when it is not a prefix |
| PathUtil.DecodeFilePaths | src/path.util.ts:75-79 | one record per path, in the same order, each the decoding of its path |
| Js.Split | src/path.util.ts:60 | at least one piece, and no piece holds the separator |
| Js.JoinSplit | src/path.util.ts:60 | joining the pieces with the separator gives the string back |
| Js.ReplaceFirst | src/path.util.ts:92 | only the first occurrence of the pattern is replaced, wherever it is; without one the string is unchanged |
| Js.DigitsValueOfDecimal | src/md.util.ts:96 | `Number` reads back the decimal numeral of a natural number |
| Js.DigitsValueLeadingZero | src/md.util.ts:96 | leading zeros do not change the level: `h01` is level 1 |

## Left out

- The markdown-it tokenizer is a foreign library, so the token list is the input. `getMdOutline` is modelled from the token list on.
- Reading and writing files (`file.util.ts`), the asynchronous creation steps, the deferred getters and logging are I/O and promise plumbing. The model takes the file list and the outline map as inputs.
- `getValidInput`, `getValidOutput` and `getInputFolder` need the file system. The resolved output path is an input of `MdOutlineCreator.Creator`.
- `cli.ts`, `webpack.config.js` and `CliJsDecoratePlugin.js` are command-line and build tooling.
- The Node `path` functions (`parse`, `resolve`, `relative`) are uninterpreted function values in `PathUtil.NodePath`, and `path.sep` is fixed to `/`.
- HashUtil.ToLowerAscii: lower-cases only the ASCII letters. The full Unicode `toLowerCase` (and the length changes it can cause) is not modelled.
- HashUtil.GithubHashFormatter: rests on that ASCII lower-casing. White space is the exact set JavaScript's `\s` matches.
- MdUtil.HeadingLevel: reads the digits exactly. `Number` rounds numerals above 2^53, which no heading tag reaches.
- MdUtil.CreateHeadingNode: only a content made of a single text run is given its exact text in the contract. The model computes the JavaScript `join('')` exactly, where a nested node prints as `[object Object]`.
- Tokens with `children: null`: markdown-it gives them for block tokens such as `hr`, and for a fence with empty content. Such a token has empty content and a non-empty tag, so `createRenderNode` calls `encodeRenderTree(null)`, and looping over `null` throws a `TypeError` (src/md.util.ts:108-129, 148-150). Read as written, the source therefore rejects any document with a top-level thematic break. Tokens here always hold a list of children, possibly empty, as the `TToken` interface declares, so the model builds an empty node for them instead.
- MdOutlineCreator.MergeOptions: a key that is present but holds `undefined` is not distinguished from an absent key.
- MdOutlineCreator.GetOutlineInfo: a file whose path names an inherited member of the outline object is not modelled; the outline map is a Dafny map.
- MdOutlineCreator.CreateFileOutline: the contract gives the emptiness condition and the heading prefix. The exact text of a non-empty section is its definition.
- Custom hash formatters are Dafny functions, so they cannot throw or have side effects.

## Findings

| source | as written | input that shows it | evidently intended | confidence | as-written member | corrected member |
|---|---|---|---|---|---|---|
| src/MdOutlineCreator.ts:219-224 | `grpMap` is a plain `{}`, so `grpMap[dir]` for a folder named `constructor`, `toString`, `__proto__` and the like finds an inherited member, which is truthy, and `currentGrp.push(item)` throws a `TypeError` | one file in the folder `constructor` (`InheritedFolderName`) | one group per folder name whatever the name, for example with `Object.create(null)` or a `Map` | not executed | MdOutlineCreator.GroupFileInfoList | MdOutlineCreator.GroupFoldersFiles |
