/**
 * `MdOutlineCreator.ts`: the options, the grouping of the Markdown files by
 * folder, and the text of the outline document: one section per file with
 * headings, one bullet link per heading, indented by its depth.
 *
 * The creator's asynchronous plumbing (file list, outline map, getters) is
 * replaced by its results: a `Creator` value holds the resolved output path,
 * the merged options, the outline of every file and the Node `path`
 * functions.
 */
module MdOutlineCreator {
  import opened Js
  import opened MdUtil
  import opened PathUtil
  import HashUtil
  import HeadingTree
  import JsObject

  // ---------------------------------------------------------------------
  // Options

  /**
   * The value of the `hashFormatter` option: the string `'GitHub'`, a
   * function, or any other value (which selects the identity formatter).
   */
  datatype HashFormatterOption = GitHub | Defined(format: string -> string) | OtherValue

  /**
   * `IOptions`; `None` is a key that is absent. `isIgnoreEmptyFile` is only
   * ever read for its truthiness, so a present value is kept as that.
   */
  datatype Options = Options(isIgnoreEmptyFile: Option<bool>, hashFormatter: Option<HashFormatterOption>)

  /** `getDefaultOptions`. */
  function DefaultOptions(): Options {
    Options(Some(true), Some(GitHub))
  }

  /** `{...base, ...over}`: each key present in `over` wins. */
  function Spread(base: Options, over: Options): Options {
    Options(
      if over.isIgnoreEmptyFile.Some? then over.isIgnoreEmptyFile else base.isIgnoreEmptyFile,
      if over.hashFormatter.Some? then over.hashFormatter else base.hashFormatter)
  }

  /**
   * The constructor's `{...defaultOptions, ...options}`: every key given by
   * the user is kept, every other key takes its default, and so no key is
   * absent afterwards.
   */
  function MergeOptions(user: Options): (r: Options)
    ensures r.isIgnoreEmptyFile.Some? && r.hashFormatter.Some?
    ensures user.isIgnoreEmptyFile.Some? ==> r.isIgnoreEmptyFile == user.isIgnoreEmptyFile
    ensures user.isIgnoreEmptyFile.None? ==> r.isIgnoreEmptyFile == Some(true)
    ensures user.hashFormatter.Some? ==> r.hashFormatter == user.hashFormatter
    ensures user.hashFormatter.None? ==> r.hashFormatter.value.GitHub?
  {
    Spread(DefaultOptions(), user)
  }

  /** Without user options (the `options = {}` default) the defaults are used. */
  lemma MergeNoOptions()
    ensures MergeOptions(Options(None, None)) == DefaultOptions()
  {
  }

  /** Truthiness of the `isIgnoreEmptyFile` option. */
  predicate IgnoresEmptyFiles(options: Options) {
    options.isIgnoreEmptyFile == Some(true)
  }

  /** `getHashFormatter`: `'GitHub'` selects the GitHub slug, a function is used as it is, anything else is the identity. */
  function GetHashFormatter(options: Options): (f: string -> string)
    ensures options.hashFormatter.Some? && options.hashFormatter.value.GitHub? ==>
      forall t :: f(t) == HashUtil.GithubHashFormatter(t)
    ensures options.hashFormatter.Some? && options.hashFormatter.value.Defined? ==>
      forall t :: f(t) == options.hashFormatter.value.format(t)
    ensures options.hashFormatter.None? || options.hashFormatter.value.OtherValue? ==>
      forall t :: f(t) == t
  {
    if options.hashFormatter.Some? && options.hashFormatter.value.GitHub? then HashUtil.GithubHashFormatter
    else if options.hashFormatter.Some? && options.hashFormatter.value.Defined? then options.hashFormatter.value.format
    else HashUtil.DefaultFormatter
  }

  /** The creator's state once the file list and the outline map are known. */
  datatype Creator = Creator(
    output: string,
    options: Options,
    outlineMap: map<string, seq<HeadingNode>>,
    np: NodePath)

  /** `outputFolder`: the directory of the resolved output file. */
  function OutputFolder(c: Creator): string {
    c.np.parse(c.np.resolve(c.output)).dir
  }

  /** `createHashRoute`. */
  function CreateHashRoute(c: Creator, title: string): string {
    GetHashFormatter(c.options)(title)
  }

  /** Unless the user chose a formatter, an anchor is the GitHub slug of the heading text, free of white space. */
  lemma DefaultHashRoute(user: Options, c: Creator, title: string)
    requires user.hashFormatter.None? && c.options == MergeOptions(user)
    ensures CreateHashRoute(c, title) == HashUtil.GithubHashFormatter(title)
    ensures forall i :: 0 <= i < |CreateHashRoute(c, title)| ==> !HashUtil.IsWhiteSpace(CreateHashRoute(c, title)[i])
  {
  }

  // ---------------------------------------------------------------------
  // The outline list of one file

  /** The link target: the file relative to the output folder. */
  function Target(c: Creator, filePath: string): string {
    c.np.relative(OutputFolder(c), filePath)
  }

  /** One bullet: a new line, `depth` tabs, and the link to the heading. */
  function Line(c: Creator, filePath: string, text: string, depth: nat): string {
    "\n" + Repeat('\t', depth) + "* [" + text + "](" + Target(c, filePath) + "#" + CreateHashRoute(c, text) + ")\n"
  }

  /** `createOutlineList`: each heading's bullet followed by its children's list one tab deeper. */
  function CreateOutlineList(c: Creator, filePath: string, outline: seq<HeadingNode>, tabLevel: nat): string
    decreases outline
  {
    if |outline| == 0 then ""
    else OutlineItem(c, filePath, outline[0], tabLevel) + CreateOutlineList(c, filePath, outline[1..], tabLevel)
  }

  function OutlineItem(c: Creator, filePath: string, item: HeadingNode, tabLevel: nat): string
    decreases item
  {
    Line(c, filePath, item.text, tabLevel) + CreateOutlineList(c, filePath, item.children, tabLevel + 1)
  }

  /** A heading's text and its depth in the forest. */
  datatype Entry = Entry(text: string, depth: nat)

  /** The headings of a forest in pre-order, each with its depth below `depth`. */
  function Entries(outline: seq<HeadingNode>, depth: nat): seq<Entry>
    decreases outline
  {
    if |outline| == 0 then [] else EntriesOf(outline[0], depth) + Entries(outline[1..], depth)
  }

  function EntriesOf(item: HeadingNode, depth: nat): seq<Entry>
    decreases item
  {
    [Entry(item.text, depth)] + Entries(item.children, depth + 1)
  }

  /** The bullets of the entries, one after the other. */
  function Lines(c: Creator, filePath: string, es: seq<Entry>): string {
    if |es| == 0 then "" else Line(c, filePath, es[0].text, es[0].depth) + Lines(c, filePath, es[1..])
  }

  lemma {:induction false} LinesAppend(c: Creator, filePath: string, x: seq<Entry>, y: seq<Entry>)
    ensures Lines(c, filePath, x + y) == Lines(c, filePath, x) + Lines(c, filePath, y)
  {
    if |x| == 0 {
      assert x + y == y;
    } else {
      assert (x + y)[0] == x[0] && (x + y)[1..] == x[1..] + y;
      LinesAppend(c, filePath, x[1..], y);
    }
  }

  /** The outline list is one bullet per heading, in pre-order, indented by the heading's depth. */
  lemma {:induction false} OutlineListIsLines(c: Creator, filePath: string, outline: seq<HeadingNode>, tabLevel: nat)
    ensures CreateOutlineList(c, filePath, outline, tabLevel) == Lines(c, filePath, Entries(outline, tabLevel))
    decreases outline
  {
    if |outline| > 0 {
      OutlineItemIsLines(c, filePath, outline[0], tabLevel);
      OutlineListIsLines(c, filePath, outline[1..], tabLevel);
      LinesAppend(c, filePath, EntriesOf(outline[0], tabLevel), Entries(outline[1..], tabLevel));
    }
  }

  lemma {:induction false} OutlineItemIsLines(c: Creator, filePath: string, item: HeadingNode, tabLevel: nat)
    ensures OutlineItem(c, filePath, item, tabLevel) == Lines(c, filePath, EntriesOf(item, tabLevel))
    decreases item
  {
    OutlineListIsLines(c, filePath, item.children, tabLevel + 1);
    var e := Entry(item.text, tabLevel);
    LinesAppend(c, filePath, [e], Entries(item.children, tabLevel + 1));
    assert Lines(c, filePath, [e]) == Line(c, filePath, item.text, tabLevel) + Lines(c, filePath, []);
  }

  /** The outline list is empty exactly when the file has no headings. */
  lemma OutlineListEmpty(c: Creator, filePath: string, outline: seq<HeadingNode>, tabLevel: nat)
    ensures CreateOutlineList(c, filePath, outline, tabLevel) == "" <==> outline == []
  {
    if |outline| > 0 {
      var first := OutlineItem(c, filePath, outline[0], tabLevel);
      assert first[0] == '\n';
    }
  }

  function EntryTexts(es: seq<Entry>): seq<string> {
    if |es| == 0 then [] else [es[0].text] + EntryTexts(es[1..])
  }

  function NodeTexts(ns: seq<HeadingNode>): seq<string> {
    if |ns| == 0 then [] else [ns[0].text] + NodeTexts(ns[1..])
  }

  lemma {:induction false} EntryTextsAppend(x: seq<Entry>, y: seq<Entry>)
    ensures EntryTexts(x + y) == EntryTexts(x) + EntryTexts(y)
  {
    if |x| == 0 {
      assert x + y == y;
    } else {
      assert (x + y)[1..] == x[1..] + y;
      EntryTextsAppend(x[1..], y);
    }
  }

  lemma {:induction false} NodeTextsAppend(x: seq<HeadingNode>, y: seq<HeadingNode>)
    ensures NodeTexts(x + y) == NodeTexts(x) + NodeTexts(y)
  {
    if |x| == 0 {
      assert x + y == y;
    } else {
      assert (x + y)[1..] == x[1..] + y;
      NodeTextsAppend(x[1..], y);
    }
  }

  /** The bullets name the headings in the heading tree's pre-order. */
  lemma {:induction false} EntriesArePreOrder(outline: seq<HeadingNode>, depth: nat)
    ensures EntryTexts(Entries(outline, depth)) == NodeTexts(HeadingTree.Flatten(outline))
    decreases outline
  {
    if |outline| > 0 {
      var n := outline[0];
      EntriesArePreOrder(n.children, depth + 1);
      EntriesArePreOrder(outline[1..], depth);
      EntryTextsAppend([Entry(n.text, depth)], Entries(n.children, depth + 1));
      EntryTextsAppend(EntriesOf(n, depth), Entries(outline[1..], depth));
      NodeTextsAppend([HeadingTree.Strip(n)], HeadingTree.Flatten(n.children));
      NodeTextsAppend(HeadingTree.FlattenNode(n), HeadingTree.Flatten(outline[1..]));
    }
  }

  /**
   * For the heading tree of a document whose headings are all of level 1 or
   * more, the outline list links every heading once, in document order.
   */
  lemma OutlineInDocumentOrder(flat: seq<HeadingNode>)
    requires forall i :: 0 <= i < |flat| ==> flat[i].children == [] && flat[i].level >= 1
    ensures EntryTexts(Entries(HeadingForest(flat), 0)) == NodeTexts(flat)
  {
    EntriesArePreOrder(HeadingForest(flat), 0);
    HeadingTree.PreOrderIsInputOrder(flat);
  }

  // ---------------------------------------------------------------------
  // File, folder and document outlines

  /** `getOutlineInfo`: the file's outline, or none when the map has no entry for it. */
  function GetOutlineInfo(c: Creator, path: string): (r: seq<HeadingNode>)
    ensures path in c.outlineMap ==> r == c.outlineMap[path]
    ensures path !in c.outlineMap ==> r == []
  {
    if path in c.outlineMap then c.outlineMap[path] else []
  }

  /**
   * `createFileOutline`: a section headed by the folder and file name and
   * holding the file's outline list; nothing for a file without headings
   * when empty files are ignored.
   */
  function CreateFileOutline(c: Creator, file: FileInfo, folderName: string): (r: string)
    ensures r == "" <==> GetOutlineInfo(c, file.path) == [] && IgnoresEmptyFiles(c.options)
    ensures r != "" ==> |r| >= 4 && r[..4] == "\n## "
  {
    var outlineList := CreateOutlineList(c, file.path, GetOutlineInfo(c, file.path), 0);
    OutlineListEmpty(c, file.path, GetOutlineInfo(c, file.path), 0);
    if outlineList == "" && IgnoresEmptyFiles(c.options) then ""
    else "\n## " + (if folderName != "" then folderName + "/" else "") + file.fileName + "\n" + outlineList
  }

  /** `IFolderInfo`. */
  datatype FolderInfo = FolderInfo(name: string, files: seq<FileInfo>)

  /** The file sections of a folder, in the folder's order. */
  function FileOutlines(c: Creator, files: seq<FileInfo>, folderName: string): string {
    if |files| == 0 then ""
    else FileOutlines(c, files[..|files| - 1], folderName) + CreateFileOutline(c, files[|files| - 1], folderName)
  }

  /** What `createFolderOutline` returns: the sections after a blank line, or nothing when there is none. */
  function FolderOutline(c: Creator, folder: FolderInfo): string {
    var temp := FileOutlines(c, folder.files, folder.name);
    if temp == "" then "" else "\n" + temp
  }

  /** `createFolderOutline`. */
  method CreateFolderOutline(c: Creator, folder: FolderInfo) returns (r: string)
    ensures r == FolderOutline(c, folder)
  {
    var files := folder.files;
    var temp := "";
    for i := 0 to |files|
      invariant temp == FileOutlines(c, files[..i], folder.name)
    {
      assert files[..i + 1][..i] == files[..i];
      temp := temp + CreateFileOutline(c, files[i], folder.name);
    }
    assert files[..|files|] == files;
    if temp == "" {
      return "";
    }
    return "\n" + temp;
  }

  /** The folder outlines one after the other. */
  function FolderOutlines(c: Creator, folders: seq<FolderInfo>): string {
    if |folders| == 0 then ""
    else FolderOutlines(c, folders[..|folders| - 1]) + FolderOutline(c, folders[|folders| - 1])
  }

  /** What `createDocContent` returns when the grouping does not throw. */
  function DocContent(c: Creator, fileInfoList: seq<FileInfo>): string {
    FolderOutlines(c, GroupFolders(fileInfoList))
  }

  /**
   * `createDocContent`: it throws as `groupFileInfoList` does, when a file's
   * folder key names an inherited member; otherwise it returns the folder
   * outlines of the grouping one after the other.
   */
  method CreateDocContent(c: Creator, fileInfoList: seq<FileInfo>) returns (r: Result<string>)
    ensures r.Failure? <==> exists i :: 0 <= i < |fileInfoList| && IsInherited(FolderName(fileInfoList[i]))
    ensures r.Success? ==> r.value == DocContent(c, fileInfoList)
  {
    var grouped := GroupFileInfoList(fileInfoList);
    if grouped.Failure? {
      return Failure(grouped.error);
    }
    var folders := grouped.value;
    var temp := "";
    for i := 0 to |folders|
      invariant temp == FolderOutlines(c, folders[..i])
    {
      TakeNext(folders, i);
      var folderOutline := CreateFolderOutline(c, folders[i]);
      temp := temp + folderOutline;
    }
    assert folders[..|folders|] == folders;
    return Success(temp);
  }

  /** Every file of `files` has an empty section under `folderName`. */
  predicate AllFilesEmpty(c: Creator, files: seq<FileInfo>, folderName: string) {
    forall i :: 0 <= i < |files| ==> CreateFileOutline(c, files[i], folderName) == ""
  }

  lemma {:induction false} FileOutlinesEmpty(c: Creator, files: seq<FileInfo>, folderName: string)
    ensures FileOutlines(c, files, folderName) == "" <==> AllFilesEmpty(c, files, folderName)
  {
    if |files| > 0 {
      var init := files[..|files| - 1];
      var last := CreateFileOutline(c, files[|files| - 1], folderName);
      FileOutlinesEmpty(c, init, folderName);
      BothEmpty(FileOutlines(c, init, folderName), last);
      AllFilesEmptySnoc(c, files, folderName);
    }
  }

  lemma AllFilesEmptySnoc(c: Creator, files: seq<FileInfo>, folderName: string)
    requires |files| > 0
    ensures AllFilesEmpty(c, files, folderName) <==>
      AllFilesEmpty(c, files[..|files| - 1], folderName) && CreateFileOutline(c, files[|files| - 1], folderName) == ""
  {
    var init := files[..|files| - 1];
    if AllFilesEmpty(c, init, folderName) && CreateFileOutline(c, files[|files| - 1], folderName) == "" {
      forall k | 0 <= k < |files|
        ensures CreateFileOutline(c, files[k], folderName) == ""
      {
        if k < |init| {
          assert files[k] == init[k];
        }
      }
    }
    if AllFilesEmpty(c, files, folderName) {
      forall k | 0 <= k < |init|
        ensures CreateFileOutline(c, init[k], folderName) == ""
      {
        assert files[k] == init[k];
      }
    }
  }

  lemma {:induction false} FolderOutlinesEmpty(c: Creator, folders: seq<FolderInfo>)
    ensures FolderOutlines(c, folders) == "" <==> AllFoldersEmpty(c, folders)
  {
    if |folders| > 0 {
      var init := folders[..|folders| - 1];
      var last := FolderOutline(c, folders[|folders| - 1]);
      FolderOutlinesEmpty(c, init);
      BothEmpty(FolderOutlines(c, init), last);
      AllFoldersEmptySnoc(c, folders);
    }
  }

  lemma AllFoldersEmptySnoc(c: Creator, folders: seq<FolderInfo>)
    requires |folders| > 0
    ensures AllFoldersEmpty(c, folders) <==>
      AllFoldersEmpty(c, folders[..|folders| - 1]) && FolderOutline(c, folders[|folders| - 1]) == ""
  {
    var init := folders[..|folders| - 1];
    if AllFoldersEmpty(c, init) && FolderOutline(c, folders[|folders| - 1]) == "" {
      forall k | 0 <= k < |folders|
        ensures FolderOutline(c, folders[k]) == ""
      {
        if k < |init| {
          assert folders[k] == init[k];
        }
      }
    }
    if AllFoldersEmpty(c, folders) {
      forall k | 0 <= k < |init|
        ensures FolderOutline(c, init[k]) == ""
      {
        assert folders[k] == init[k];
      }
    }
  }

  lemma BothEmpty(a: string, b: string)
    ensures a + b == "" <==> a == "" && b == ""
  {
    if a + b == "" {
      assert |a + b| == |a| + |b|;
    }
  }

  /** A folder's outline is empty exactly when each of its file sections is. */
  lemma FolderOutlineEmpty(c: Creator, folder: FolderInfo)
    ensures FolderOutline(c, folder) == "" <==>
      forall m :: 0 <= m < |folder.files| ==> CreateFileOutline(c, folder.files[m], folder.name) == ""
  {
    FileOutlinesEmpty(c, folder.files, folder.name);
  }

  /**
   * The document is empty exactly when no file has a heading and, unless
   * there are no files at all, empty files are ignored. Every file is in
   * some folder, and every folder's files come from the list.
   */
  lemma DocContentEmpty(c: Creator, fileInfoList: seq<FileInfo>)
    ensures DocContent(c, fileInfoList) == "" <==>
      (|fileInfoList| == 0 || IgnoresEmptyFiles(c.options)) &&
      forall i :: 0 <= i < |fileInfoList| ==> GetOutlineInfo(c, fileInfoList[i].path) == []
  {
    GroupFoldersMembers(fileInfoList);
    GroupFoldersCover(fileInfoList);
    FoldersEmpty(c, fileInfoList, GroupFolders(fileInfoList));
  }

  /** Every file of every folder of `g` is listed and belongs to that folder. */
  predicate FoldersHoldListed(fileInfoList: seq<FileInfo>, g: seq<FolderInfo>) {
    forall i, f :: 0 <= i < |g| && f in g[i].files ==> f in fileInfoList && FolderName(f) == g[i].name
  }

  /** Every listed file is in the folder named after its directories. */
  predicate ListedInFolders(fileInfoList: seq<FileInfo>, g: seq<FolderInfo>) {
    forall f :: f in fileInfoList ==> exists i :: 0 <= i < |g| && g[i].name == FolderName(f) && f in g[i].files
  }

  /** The outlines of folders that partition the list are empty exactly when each file's section is. */
  lemma FoldersEmpty(c: Creator, fileInfoList: seq<FileInfo>, g: seq<FolderInfo>)
    requires FoldersHoldListed(fileInfoList, g)
    requires ListedInFolders(fileInfoList, g)
    ensures FolderOutlines(c, g) == "" <==>
      NothingToList(c, fileInfoList)
  {
    FolderOutlinesEmpty(c, g);
    FolderSectionsEmpty(c, g);
    SectionsEmpty(c, fileInfoList, g);
  }

  /** Every folder of `g` has an empty outline. */
  predicate AllFoldersEmpty(c: Creator, g: seq<FolderInfo>) {
    forall k :: 0 <= k < |g| ==> FolderOutline(c, g[k]) == ""
  }

  /** Every file section of every folder of `g` is empty. */
  predicate AllSectionsEmpty(c: Creator, g: seq<FolderInfo>) {
    forall k, m :: 0 <= k < |g| && 0 <= m < |g[k].files| ==> CreateFileOutline(c, g[k].files[m], g[k].name) == ""
  }

  /** Every folder outline is empty exactly when every file section in every folder is. */
  lemma FolderSectionsEmpty(c: Creator, g: seq<FolderInfo>)
    ensures AllFoldersEmpty(c, g) <==> AllSectionsEmpty(c, g)
  {
    if AllFoldersEmpty(c, g) {
      forall k, m | 0 <= k < |g| && 0 <= m < |g[k].files|
        ensures CreateFileOutline(c, g[k].files[m], g[k].name) == ""
      {
        FolderOutlineEmpty(c, g[k]);
      }
    }
    if AllSectionsEmpty(c, g) {
      forall k | 0 <= k < |g|
        ensures FolderOutline(c, g[k]) == ""
      {
        FolderOutlineEmpty(c, g[k]);
      }
    }
  }

  /** No file has a heading and, unless there are no files, empty files are ignored. */
  predicate NothingToList(c: Creator, fileInfoList: seq<FileInfo>) {
    (|fileInfoList| == 0 || IgnoresEmptyFiles(c.options)) &&
    forall i :: 0 <= i < |fileInfoList| ==> GetOutlineInfo(c, fileInfoList[i].path) == []
  }

  /** Every file section is empty exactly when every file of the list has an empty section. */
  lemma SectionsEmpty(c: Creator, fileInfoList: seq<FileInfo>, g: seq<FolderInfo>)
    requires FoldersHoldListed(fileInfoList, g)
    requires ListedInFolders(fileInfoList, g)
    ensures AllSectionsEmpty(c, g) <==>
      NothingToList(c, fileInfoList)
  {
    if AllSectionsEmpty(c, g) {
      SectionsEmptyOnlyIf(c, fileInfoList, g);
    }
    if NothingToList(c, fileInfoList)
    {
      SectionsEmptyIf(c, fileInfoList, g);
    }
  }

  lemma SectionsEmptyOnlyIf(c: Creator, fileInfoList: seq<FileInfo>, g: seq<FolderInfo>)
    requires forall f :: f in fileInfoList ==> exists i :: 0 <= i < |g| && g[i].name == FolderName(f) && f in g[i].files
    requires forall k, m :: 0 <= k < |g| && 0 <= m < |g[k].files| ==> CreateFileOutline(c, g[k].files[m], g[k].name) == ""
    ensures |fileInfoList| == 0 || IgnoresEmptyFiles(c.options)
    ensures forall i :: 0 <= i < |fileInfoList| ==> GetOutlineInfo(c, fileInfoList[i].path) == []
  {
    forall i | 0 <= i < |fileInfoList|
      ensures GetOutlineInfo(c, fileInfoList[i].path) == []
    {
      SectionOfListed(c, fileInfoList, g, i);
    }
    if |fileInfoList| > 0 {
      SectionOfListed(c, fileInfoList, g, 0);
    }
  }

  /** A listed file sits in some folder, so its section is one of the empty ones. */

  lemma SectionOfListed(c: Creator, fileInfoList: seq<FileInfo>, g: seq<FolderInfo>, i: nat)
    requires i < |fileInfoList|
    requires forall f :: f in fileInfoList ==> exists i :: 0 <= i < |g| && g[i].name == FolderName(f) && f in g[i].files
    requires forall k, m :: 0 <= k < |g| && 0 <= m < |g[k].files| ==> CreateFileOutline(c, g[k].files[m], g[k].name) == ""
    ensures IgnoresEmptyFiles(c.options) && GetOutlineInfo(c, fileInfoList[i].path) == []
  {
    var f := fileInfoList[i];
    assert f in fileInfoList;
    var k :| 0 <= k < |g| && g[k].name == FolderName(f) && f in g[k].files;
    var m :| 0 <= m < |g[k].files| && g[k].files[m] == f;
    assert CreateFileOutline(c, g[k].files[m], g[k].name) == "";
  }

  lemma SectionsEmptyIf(c: Creator, fileInfoList: seq<FileInfo>, g: seq<FolderInfo>)
    requires forall i, f :: 0 <= i < |g| && f in g[i].files ==> f in fileInfoList && FolderName(f) == g[i].name
    requires |fileInfoList| == 0 || IgnoresEmptyFiles(c.options)
    requires forall i :: 0 <= i < |fileInfoList| ==> GetOutlineInfo(c, fileInfoList[i].path) == []
    ensures forall k, m :: 0 <= k < |g| && 0 <= m < |g[k].files| ==> CreateFileOutline(c, g[k].files[m], g[k].name) == ""
  {
    forall k, m | 0 <= k < |g| && 0 <= m < |g[k].files|
      ensures CreateFileOutline(c, g[k].files[m], g[k].name) == ""
    {
      var f := g[k].files[m];
      assert f in g[k].files;
      assert f in fileInfoList;
      var i :| 0 <= i < |fileInfoList| && fileInfoList[i] == f;
    }
  }

  // ---------------------------------------------------------------------
  // Grouping the files by folder

  /** `item.dirs.join('/')`: the key of the file's group. */
  function FolderName(f: FileInfo): string {
    Join(f.dirs, [Sep])
  }

  /** Files with the same key are in the same folder: the key gives the folder names back. */
  lemma FolderNameInjective(f: FileInfo, g: FileInfo)
    requires forall i :: 0 <= i < |f.dirs| ==> f.dirs[i] != "" && Sep !in f.dirs[i]
    requires forall i :: 0 <= i < |g.dirs| ==> g.dirs[i] != "" && Sep !in g.dirs[i]
    ensures FolderName(f) == FolderName(g) <==> f.dirs == g.dirs
  {
    SplitPathJoin(f.dirs);
    SplitPathJoin(g.dirs);
  }

  /** The folder keys in the order they first occur. */
  function FolderKeys(files: seq<FileInfo>): seq<string> {
    if |files| == 0 then []
    else
      var p := FolderKeys(files[..|files| - 1]);
      var d := FolderName(files[|files| - 1]);
      if d in p then p else p + [d]
  }

  /** Each key is listed once, and the keys are exactly the files' keys. */
  lemma {:induction false} FolderKeysSpec(files: seq<FileInfo>)
    ensures forall i, j :: 0 <= i < j < |FolderKeys(files)| ==> FolderKeys(files)[i] != FolderKeys(files)[j]
    ensures forall x :: x in FolderKeys(files) <==> exists i :: 0 <= i < |files| && FolderName(files[i]) == x
  {
    if |files| > 0 {
      var init := files[..|files| - 1];
      FolderKeysSpec(init);
      var p := FolderKeys(init);
      var d := FolderName(files[|files| - 1]);
      if d !in p {
        var r := p + [d];
        assert forall i :: 0 <= i < |p| ==> r[i] == p[i];
        assert r[|p|] == d;
      }
      forall x
        ensures x in FolderKeys(files) <==> exists i :: 0 <= i < |files| && FolderName(files[i]) == x
      {
        if x in p {
          var i :| 0 <= i < |init| && FolderName(init[i]) == x;
          assert init[i] == files[i];
        }
        if exists i :: 0 <= i < |files| && FolderName(files[i]) == x {
          var i :| 0 <= i < |files| && FolderName(files[i]) == x;
          if i < |init| {
            assert init[i] == files[i];
          }
        }
      }
    }
  }

  /** The files with folder key `name`, in list order. */
  function FilesIn(files: seq<FileInfo>, name: string): seq<FileInfo> {
    if |files| == 0 then []
    else
      FilesIn(files[..|files| - 1], name) +
      (if FolderName(files[|files| - 1]) == name then [files[|files| - 1]] else [])
  }

  /** The files with key `name` are exactly the listed files with that key; none when no file has it. */
  lemma {:induction false} FilesInSpec(files: seq<FileInfo>, name: string)
    ensures forall f :: f in FilesIn(files, name) <==> f in files && FolderName(f) == name
    ensures (forall j :: 0 <= j < |files| ==> FolderName(files[j]) != name) ==> FilesIn(files, name) == []
  {
    if |files| > 0 {
      var init := files[..|files| - 1];
      var last := files[|files| - 1];
      FilesInSpec(init, name);
      assert files == init + [last];
      assert forall j :: 0 <= j < |init| ==> init[j] == files[j];
    }
  }

  /**
   * The grouping `groupFileInfoList` intends: one folder per key, listed in
   * `Object.keys` order of an object whose keys are added in first-occurrence
   * order, each with its files in list order.
   */
  function GroupFolders(files: seq<FileInfo>): seq<FolderInfo> {
    GroupsFor(files, JsObject.OwnKeys(FolderKeys(files)))
  }

  /** One folder per key of `keys`, in that order, with the files of that key. */
  function GroupsFor(files: seq<FileInfo>, keys: seq<string>): seq<FolderInfo> {
    seq(|keys|, i requires 0 <= i < |keys| => FolderInfo(keys[i], FilesIn(files, keys[i])))
  }

  lemma OwnKeysMembers(ks: seq<string>)
    ensures forall x :: x in JsObject.OwnKeys(ks) <==> x in ks
  {
    JsObject.OwnKeysOrder(ks);
    assert forall x :: x in JsObject.OwnKeys(ks) <==> x in multiset(JsObject.OwnKeys(ks));
    assert forall x :: x in ks <==> x in multiset(ks);
  }

  /** The keys in `Object.keys` order are distinct and are the files' keys. */
  lemma OrderedKeys(files: seq<FileInfo>, keys: seq<string>)
    requires keys == JsObject.OwnKeys(FolderKeys(files))
    ensures forall i, j :: 0 <= i < j < |keys| ==> keys[i] != keys[j]
    ensures forall x :: x in keys <==> exists i :: 0 <= i < |files| && FolderName(files[i]) == x
  {
    FolderKeysSpec(files);
    JsObject.OwnKeysDistinct(FolderKeys(files));
    OwnKeysMembers(FolderKeys(files));
  }

  // The folders partition the files: the next four lemmas.

  /** Folder names are distinct. */
  lemma GroupFoldersNamesDistinct(files: seq<FileInfo>)
    ensures var g := GroupFolders(files);
      forall i, j :: 0 <= i < j < |g| ==> g[i].name != g[j].name
  {
    var keys := JsObject.OwnKeys(FolderKeys(files));
    OrderedKeys(files, keys);
    var g := GroupsFor(files, keys);
    assert forall i :: 0 <= i < |g| ==> g[i].name == keys[i];
  }

  /** Each folder holds exactly the files with its key, in list order, and is not empty. */
  lemma GroupFoldersFiles(files: seq<FileInfo>)
    ensures var g := GroupFolders(files);
      forall i :: 0 <= i < |g| ==> g[i].files == FilesIn(files, g[i].name) && g[i].files != []
  {
    var keys := JsObject.OwnKeys(FolderKeys(files));
    OrderedKeys(files, keys);
    GroupFilesNonEmpty(files, keys);
    var g := GroupsFor(files, keys);
    assert forall i :: 0 <= i < |g| ==> g[i] == FolderInfo(keys[i], FilesIn(files, keys[i]));
  }

  /** Every file of a folder is a listed file with the folder's key. */
  lemma GroupFoldersMembers(files: seq<FileInfo>)
    ensures var g := GroupFolders(files);
      forall i, f :: 0 <= i < |g| && f in g[i].files ==> f in files && FolderName(f) == g[i].name
  {
    GroupFilesMatch(files, JsObject.OwnKeys(FolderKeys(files)));
  }

  /** Every listed file is in the folder of its key. */
  lemma GroupFoldersCover(files: seq<FileInfo>)
    ensures var g := GroupFolders(files);
      forall f :: f in files ==> exists i :: 0 <= i < |g| && g[i].name == FolderName(f) && f in g[i].files
  {
    var keys := JsObject.OwnKeys(FolderKeys(files));
    OrderedKeys(files, keys);
    EveryFileGrouped(files, keys);
    var g, h := GroupFolders(files), GroupsFor(files, keys);
    assert g == h;
    forall f | f in files
      ensures exists i :: 0 <= i < |g| && g[i].name == FolderName(f) && f in g[i].files
    {
      var i :| 0 <= i < |h| && h[i].name == FolderName(f) && f in h[i].files;
      assert g[i] == h[i];
    }
  }

  lemma GroupFilesMatch(files: seq<FileInfo>, keys: seq<string>)
    ensures var g := GroupsFor(files, keys);
      forall i, f :: 0 <= i < |g| && f in g[i].files ==> f in files && FolderName(f) == g[i].name
  {
    var g := GroupsFor(files, keys);
    forall i, f | 0 <= i < |g| && f in g[i].files
      ensures f in files && FolderName(f) == g[i].name
    {
      FilesInSpec(files, keys[i]);
    }
  }

  lemma GroupFilesNonEmpty(files: seq<FileInfo>, keys: seq<string>)
    requires forall x :: x in keys ==> exists i :: 0 <= i < |files| && FolderName(files[i]) == x
    ensures var g := GroupsFor(files, keys);
      forall i :: 0 <= i < |g| ==> g[i].files != []
  {
    var g := GroupsFor(files, keys);
    forall i | 0 <= i < |g|
      ensures g[i].files != []
    {
      assert keys[i] in keys;
      var j :| 0 <= j < |files| && FolderName(files[j]) == keys[i];
      FilesInSpec(files, keys[i]);
      assert files[j] in g[i].files;
    }
  }

  lemma EveryFileGrouped(files: seq<FileInfo>, keys: seq<string>)
    requires forall x :: x in keys <== exists i :: 0 <= i < |files| && FolderName(files[i]) == x
    ensures var g := GroupsFor(files, keys);
      forall f :: f in files ==> exists i :: 0 <= i < |g| && g[i].name == FolderName(f) && f in g[i].files
  {
    var g := GroupsFor(files, keys);
    forall f | f in files
      ensures exists i :: 0 <= i < |g| && g[i].name == FolderName(f) && f in g[i].files
    {
      var j :| 0 <= j < |files| && files[j] == f;
      assert FolderName(f) in keys;
      var i :| 0 <= i < |keys| && keys[i] == FolderName(f);
      FilesInSpec(files, keys[i]);
      assert g[i].name == keys[i] && f in g[i].files;
    }
  }

  /** A file is in exactly one folder. */
  lemma FileInOneFolder(files: seq<FileInfo>, f: FileInfo, i: nat, j: nat)
    requires i < |GroupFolders(files)| && j < |GroupFolders(files)|
    requires f in GroupFolders(files)[i].files && f in GroupFolders(files)[j].files
    ensures i == j
  {
    GroupFoldersNamesDistinct(files);
    GroupFoldersMembers(files);
    var g := GroupFolders(files);
    assert FolderName(f) == g[i].name && FolderName(f) == g[j].name;
  }

  /**
   * The names on `Object.prototype` that `grpMap[dir]` finds on a fresh
   * object although no group was stored under them.
   */
  const InheritedNames: seq<string> := [
    "constructor", "__proto__", "hasOwnProperty", "isPrototypeOf",
    "propertyIsEnumerable", "toString", "toLocaleString", "valueOf",
    "__defineGetter__", "__defineSetter__", "__lookupGetter__", "__lookupSetter__"]

  /** `name` is one of `names`. */
  predicate Among(name: string, names: seq<string>) {
    |names| > 0 && (name == names[0] || Among(name, names[1..]))
  }

  /** `grpMap[name]` on an empty object finds an inherited member. */
  predicate IsInherited(name: string) {
    Among(name, InheritedNames)
  }

  /**
   * `groupFileInfoList` as written: `grpMap` is a plain object, so a key
   * that names an inherited member finds that member, which is truthy, and
   * `currentGrp.push(item)` then throws. Otherwise the result is the
   * intended grouping.
   */
  method GroupFileInfoList(fileInfoList: seq<FileInfo>) returns (r: Result<seq<FolderInfo>>)
    ensures r.Failure? <==> exists i :: 0 <= i < |fileInfoList| && IsInherited(FolderName(fileInfoList[i]))
    ensures r.Success? ==> r.value == GroupFolders(fileInfoList)
  {
    var grpMap: map<string, seq<FileInfo>> := map[];
    var order: seq<string> := [];
    for i := 0 to |fileInfoList|
      invariant GroupState(fileInfoList[..i], grpMap, order)
      invariant NoneInherited(fileInfoList, i)
    {
      var item := fileInfoList[i];
      var dir := FolderName(item);
      TakeNext(fileInfoList, i);
      if dir in grpMap {
        StepExisting(fileInfoList[..i], item, grpMap, order);
        StoredNotInherited(fileInfoList, i, grpMap, order);
        grpMap := grpMap[dir := grpMap[dir] + [item]];
      } else if IsInherited(dir) {
        return Failure(TypeError("currentGrp.push is not a function"));
      } else {
        StepNew(fileInfoList[..i], item, grpMap, order);
        grpMap := grpMap[dir := [item]];
        order := order + [dir];
      }
    }
    assert fileInfoList[..|fileInfoList|] == fileInfoList;
    FinalGroups(fileInfoList, grpMap, order);
    NoneInheritedAll(fileInfoList, |fileInfoList|);
    r := Success(GroupsOf(JsObject.OwnKeys(order), grpMap));
  }

  /** `Object.keys(grpMap).map(key => ({name: key, files: grpMap[key]}))`. */
  function GroupsOf(keys: seq<string>, grpMap: map<string, seq<FileInfo>>): (r: seq<FolderInfo>)
    requires forall k :: k in keys ==> k in grpMap
    ensures |r| == |keys|
    ensures forall j :: 0 <= j < |keys| ==> r[j] == FolderInfo(keys[j], grpMap[keys[j]])
  {
    seq(|keys|, j requires 0 <= j < |keys| => FolderInfo(keys[j], grpMap[keys[j]]))
  }

  /** The loop state of `groupFileInfoList` once the files `done` are processed. */
  ghost predicate GroupState(done: seq<FileInfo>, grpMap: map<string, seq<FileInfo>>, order: seq<string>) {
    && order == FolderKeys(done)
    && (forall k :: k in grpMap <==> k in order)
    && (forall k :: k in grpMap ==> grpMap[k] == FilesIn(done, k))
  }

  /** None of the first `i` files has an inherited name as its key. */
  predicate NoneInherited(files: seq<FileInfo>, i: nat)
    requires i <= |files|
  {
    i == 0 || (NoneInherited(files, i - 1) && !IsInherited(FolderName(files[i - 1])))
  }

  lemma {:induction false} NoneInheritedAt(files: seq<FileInfo>, i: nat, j: nat)
    requires j < i <= |files| && NoneInherited(files, i)
    ensures !IsInherited(FolderName(files[j]))
  {
    if j < i - 1 {
      NoneInheritedAt(files, i - 1, j);
    }
  }

  lemma {:induction false} NoneInheritedAll(files: seq<FileInfo>, i: nat)
    requires i <= |files|
    ensures NoneInherited(files, i) <==> forall j :: 0 <= j < i ==> !IsInherited(FolderName(files[j]))
  {
    if i > 0 {
      NoneInheritedAll(files, i - 1);
    }
  }

  /** A key already in the map was the key of an earlier file, so it is not inherited. */
  lemma StoredNotInherited(files: seq<FileInfo>, i: nat, grpMap: map<string, seq<FileInfo>>, order: seq<string>)
    requires i < |files| && GroupState(files[..i], grpMap, order) && NoneInherited(files, i)
    requires FolderName(files[i]) in grpMap
    ensures NoneInherited(files, i + 1)
  {
    var d := FolderName(files[i]);
    assert d in FolderKeys(files[..i]);
    FolderKeysSpec(files[..i]);
    var j :| 0 <= j < i && FolderName(files[..i][j]) == d;
    assert files[..i][j] == files[j];
    NoneInheritedAt(files, i, j);
  }

  /** A file whose key is already stored joins that group. */
  lemma StepExisting(done: seq<FileInfo>, f: FileInfo, grpMap: map<string, seq<FileInfo>>, order: seq<string>)
    requires GroupState(done, grpMap, order)
    requires FolderName(f) in grpMap
    ensures var d := FolderName(f);
      GroupState(done + [f], grpMap[d := grpMap[d] + [f]], order)
  {
    Grow(done, f);
    var d := FolderName(f);
    var m := grpMap[d := grpMap[d] + [f]];
    assert FolderKeys(done + [f]) == order by {
      assert d in FolderKeys(done);
    }
    assert forall k :: k in m <==> k in order;
    forall k | k in m
      ensures m[k] == FilesIn(done + [f], k)
    {
      assert FilesIn(done + [f], k) == FilesIn(done, k) + (if d == k then [f] else []);
    }
  }

  /** A file with a new key starts a group and adds the key at the end of the order. */
  lemma StepNew(done: seq<FileInfo>, f: FileInfo, grpMap: map<string, seq<FileInfo>>, order: seq<string>)
    requires GroupState(done, grpMap, order)
    requires FolderName(f) !in grpMap
    ensures var d := FolderName(f);
      GroupState(done + [f], grpMap[d := [f]], order + [d])
  {
    Grow(done, f);
    var d := FolderName(f);
    assert d !in FolderKeys(done);
    FolderKeysSpec(done);
    FilesInSpec(done, d);
    assert FilesIn(done, d) == [];
  }

  lemma FinalGroups(files: seq<FileInfo>, grpMap: map<string, seq<FileInfo>>, order: seq<string>)
    requires GroupState(files, grpMap, order)
    ensures forall k :: k in JsObject.OwnKeys(order) ==> k in grpMap
    ensures GroupsOf(JsObject.OwnKeys(order), grpMap) == GroupFolders(files)
  {
    OwnKeysMembers(order);
    var keys := JsObject.OwnKeys(order);
    var mine, intended := GroupsOf(keys, grpMap), GroupFolders(files);
    assert |mine| == |intended| == |keys|;
    forall j | 0 <= j < |keys|
      ensures mine[j] == intended[j]
    {
      assert intended[j] == FolderInfo(keys[j], FilesIn(files, keys[j]));
      assert grpMap[keys[j]] == FilesIn(files, keys[j]);
    }
  }

  /** How the keys and the groups grow by one file. */
  lemma Grow(done: seq<FileInfo>, f: FileInfo)
    ensures var d := FolderName(f);
      FolderKeys(done + [f]) == if d in FolderKeys(done) then FolderKeys(done) else FolderKeys(done) + [d]
    ensures forall k :: FilesIn(done + [f], k) == FilesIn(done, k) + (if FolderName(f) == k then [f] else [])
  {
    assert (done + [f])[..|done|] == done;
  }

  /** A file in a folder named `constructor` makes the code as written throw, where the intended grouping has that folder. */
  lemma InheritedFolderName(files: seq<FileInfo>, path: string, fileName: string)
    requires files == [FileInfo(path, ["constructor"], fileName)]
    ensures FolderName(files[0]) == "constructor" && IsInherited("constructor")
    ensures GroupFolders(files) == [FolderInfo("constructor", files)]
  {
    var key := FolderName(files[0]);
    assert key == "constructor";
    assert files[..0] == [];
    assert FolderKeys(files) == [key];
    assert !JsObject.IsArrayIndex(key) by { assert !IsDigit(key[0]); }
    assert JsObject.IndexKeys([key]) == [] && JsObject.OtherKeys([key]) == [key];
    assert JsObject.OwnKeys([key]) == [key];
    assert FilesIn(files, key) == files;
  }
}
