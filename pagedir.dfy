/** The crawler's page directory as the indexer and querier see it: document files
    named by document id. The file system, the crawler marker file and the webpage
    library are not part of this model; a document file is described by what the
    two readers take from it. */
module PageDir {
  import opened Wrappers

  /** A page as indexPage reads it: the words webpage_getNextWord yields, in order. */
  datatype Webpage = Webpage(words: seq<string>)

  /** A document file: its first line (the page's URL; None when file_readLine finds
      nothing) and the page webpage_new builds from it, None when it builds none. */
  datatype DocFile = DocFile(firstLine: Option<string>, page: Option<Webpage>)

  /** The documents of a crawler directory, by document id. */
  type PageDirectory = map<int, DocFile>

  /** What pageDirLoad reports: -1 (no such file), 0 (failure), or 1 with a page. */
  datatype LoadResult = Missing | Failed | Loaded(page: Webpage)

  /** pageDirLoad: 0 for a docID below 1, -1 when the file does not exist, 0 when no
      page is built from it, otherwise 1 and the page. */
  function PageDirLoad(dir: PageDirectory, docID: int): LoadResult {
    if docID < 1 then Failed
    else if docID !in dir then Missing
    else if dir[docID].page.None? then Failed
    else Loaded(dir[docID].page.value)
  }

  /** The status code pageDirLoad returns. */
  function Status(r: LoadResult): int {
    match r
    case Missing => -1
    case Failed => 0
    case Loaded(_) => 1
  }

  /** getPageUrl: NULL for a negative docID or a missing file, otherwise the file's
      first line. */
  function GetPageUrl(dir: PageDirectory, docID: int): Option<string> {
    if docID < 0 || docID !in dir then None else dir[docID].firstLine
  }
}
