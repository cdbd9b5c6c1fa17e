/** The directory side of the monitor script over an in-memory store:
    `folderSetup` (app.js lines 28-41), `saveHTML` (lines 44-47) and `scrape`
    (lines 50-56). A directory is a path; the store maps each existing
    directory to its files, each file name to the text written under it.
    Fetching a page is not modelled: the caller supplies each fetch's outcome. */
module SnapshotStore {

  import opened Options
  import opened SaveRule

  type Path = string

  /** The directory contents: file name to file text. */
  type Folder = map<string, string>

  /** Every existing directory and its contents. */
  type Tree = map<Path, Folder>

  /** One configured page (lines 16-25). */
  datatype Statement = Statement(desc: string, url: string)

  /** `path.join(dir, name)` for a plain name. */
  function Join(dir: Path, name: string): Path
  {
    dir + "/" + name
  }

  /** `d` is `top` itself or lies somewhere beneath it. */
  predicate Within(d: Path, top: Path)
  {
    d == top || (|top| < |d| && d[..|top| + 1] == top + "/")
  }

  /** Every directory's enclosing directories exist too, as on a real file
      system: nothing lies beneath a directory that is missing. */
  ghost predicate WellFormed(t: Tree)
  {
    forall d, top :: d in t && Within(d, top) ==> top in t
  }

  /** The tree after a recursive removal of `top`. */
  function RemoveTree(t: Tree, top: Path): Tree
  {
    map d | d in t && !Within(d, top) :: t[d]
  }

  /** The tree `folderSetup` leaves behind: the root created if missing, then
      today's folder created, or removed with everything beneath it and
      created again, empty. */
  function SetUp(t: Tree, rootFolder: Path, todayDateString: string): Tree
  {
    var todayFolder := Join(rootFolder, todayDateString);
    var withRoot := if rootFolder in t then t else t[rootFolder := map[]];
    if todayFolder in withRoot then RemoveTree(withRoot, todayFolder)[todayFolder := map[]]
    else withRoot[todayFolder := map[]]
  }

  /** What `folderSetup` guarantees, whatever the tree was before: the root
      exists; today's folder exists and is empty; nothing beneath an existing
      today's folder survives; every directory outside today's folder keeps
      its contents, and only the root may be new. */
  lemma SetUpEffect(t: Tree, rootFolder: Path, todayDateString: string)
    ensures var r, todayFolder := SetUp(t, rootFolder, todayDateString), Join(rootFolder, todayDateString);
      && rootFolder in r
      && todayFolder in r && r[todayFolder] == map[]
      && (forall d :: d != todayFolder && Within(d, todayFolder) ==> (d in r <==> d in t && todayFolder !in t))
      && (forall d :: !Within(d, todayFolder) ==> (d in r <==> d in t || d == rootFolder))
      && (forall d :: d in t && !Within(d, todayFolder) ==> r[d] == t[d])
  {
    var todayFolder := Join(rootFolder, todayDateString);
    assert !Within(rootFolder, todayFolder);
  }

  /** On a well-formed tree, today's folder is left with nothing beneath it. */
  lemma SetUpClearsToday(t: Tree, rootFolder: Path, todayDateString: string)
    requires WellFormed(t)
    ensures var r, todayFolder := SetUp(t, rootFolder, todayDateString), Join(rootFolder, todayDateString);
      forall d :: d in r && Within(d, todayFolder) ==> d == todayFolder
  {
    SetUpEffect(t, rootFolder, todayDateString);
  }

  /** Running the setup again on a well-formed tree changes nothing more. */
  lemma SetUpIdempotent(t: Tree, rootFolder: Path, todayDateString: string)
    requires WellFormed(t)
    ensures SetUp(SetUp(t, rootFolder, todayDateString), rootFolder, todayDateString)
         == SetUp(t, rootFolder, todayDateString)
  {
    var once := SetUp(t, rootFolder, todayDateString);
    var twice := SetUp(once, rootFolder, todayDateString);
    SetUpClearsToday(t, rootFolder, todayDateString);
    SetUpEffect(t, rootFolder, todayDateString);
    SetUpEffect(once, rootFolder, todayDateString);
    var todayFolder := Join(rootFolder, todayDateString);
    forall d | d in twice
      ensures d in once && twice[d] == once[d]
    {
      if Within(d, todayFolder) && d != todayFolder {
        assert false;
      }
    }
    forall d | d in once
      ensures d in twice
    {
      if Within(d, todayFolder) && d != todayFolder {
        assert false;
      }
    }
  }

  /** The name `scrape` saves one statement under: the slug of its
      description, through the `saveHTML` rule. */
  function NameOf(statement: Statement, slug: string -> string): string
  {
    SaveName(slug(statement.desc))
  }

  /** How many fetches succeed before the first failure: `got` rejects on a
      failed fetch and the awaiting loop stops there. */
  function Delivered(responses: seq<Option<string>>): (n: nat)
    ensures n <= |responses|
    ensures forall i :: 0 <= i < n ==> responses[i].Some?
    ensures n < |responses| ==> responses[n].None?
  {
    if responses == [] || responses[0].None? then 0 else 1 + Delivered(responses[1..])
  }

  /** The files that saving `statements` in order writes into an empty folder:
      each under its name with its fetched body, a later one replacing an
      earlier one of the same name. */
  function Written(statements: seq<Statement>, responses: seq<Option<string>>, slug: string -> string): Folder
    requires |statements| <= |responses|
    requires forall i :: 0 <= i < |statements| ==> responses[i].Some?
  {
    if statements == [] then map[]
    else
      var last := |statements| - 1;
      Written(statements[..last], responses, slug)[NameOf(statements[last], slug) := responses[last].value]
  }

  /** Saving one more statement adds or replaces the file under its name. */
  lemma WrittenSnoc(statements: seq<Statement>, responses: seq<Option<string>>, slug: string -> string, i: nat)
    requires i < |statements| <= |responses|
    requires forall j :: 0 <= j <= i ==> responses[j].Some?
    ensures Written(statements[..i + 1], responses, slug)
         == Written(statements[..i], responses, slug)[NameOf(statements[i], slug) := responses[i].value]
  {
    assert statements[..i + 1][..i] == statements[..i];
  }

  /** Writing into a folder that already holds `folder` merged with `written`
      is the same as writing into `written` and merging afterwards. */
  lemma MergeThenWrite(folder: Folder, written: Folder, name: string, text: string)
    ensures (folder + written)[name := text] == folder + written[name := text]
  {
  }

  /** The folder holds exactly the names of the saved statements. */
  lemma {:induction false} WrittenNames(statements: seq<Statement>, responses: seq<Option<string>>,
                                        slug: string -> string, name: string)
    requires |statements| <= |responses|
    requires forall i :: 0 <= i < |statements| ==> responses[i].Some?
    ensures name in Written(statements, responses, slug)
        <==> exists i :: 0 <= i < |statements| && NameOf(statements[i], slug) == name
  {
    if statements != [] {
      var last := |statements| - 1;
      WrittenNames(statements[..last], responses, slug, name);
      if name in Written(statements, responses, slug) && name != NameOf(statements[last], slug) {
        var i :| 0 <= i < last && NameOf(statements[..last][i], slug) == name;
        assert statements[..last][i] == statements[i];
      }
    }
  }

  /** The last statement saved under a name decides its contents. */
  lemma {:induction false} WrittenLastWins(statements: seq<Statement>, responses: seq<Option<string>>,
                                           slug: string -> string, i: nat)
    requires |statements| <= |responses|
    requires forall j :: 0 <= j < |statements| ==> responses[j].Some?
    requires i < |statements|
    requires forall j :: i < j < |statements| ==> NameOf(statements[j], slug) != NameOf(statements[i], slug)
    ensures NameOf(statements[i], slug) in Written(statements, responses, slug)
    ensures Written(statements, responses, slug)[NameOf(statements[i], slug)] == responses[i].value
  {
    var last := |statements| - 1;
    if i < last {
      assert statements[..last][i] == statements[i];
      forall j | i < j < last
        ensures NameOf(statements[..last][j], slug) != NameOf(statements[..last][i], slug)
      {
        assert statements[..last][j] == statements[j];
      }
      WrittenLastWins(statements[..last], responses, slug, i);
    }
  }

  /** Every saved name matches `/.html/`, so saving it again keeps the name. */
  lemma WrittenNamesMatch(statements: seq<Statement>, responses: seq<Option<string>>,
                          slug: string -> string, name: string)
    requires |statements| <= |responses|
    requires forall i :: 0 <= i < |statements| ==> responses[i].Some?
    requires name in Written(statements, responses, slug)
    ensures Matches(name) && SaveName(name) == name
  {
    WrittenNames(statements, responses, slug, name);
    var i :| 0 <= i < |statements| && NameOf(statements[i], slug) == name;
    SaveNameMatches(slug(statements[i].desc));
  }

  /** The tree after `scrape`: today's folder gains the files of the
      statements fetched before the first failure. */
  function AfterScrape(t: Tree, todayFolder: Path, statements: seq<Statement>,
                       responses: seq<Option<string>>, slug: string -> string): Tree
    requires todayFolder in t
    requires |responses| == |statements|
  {
    t[todayFolder := t[todayFolder] + Written(statements[..Delivered(responses)], responses, slug)]
  }

  /** A run on the same day keeps nothing of an earlier run's files: after the
      setup and the scrape, today's folder holds exactly what this scrape
      saved, whatever the tree held before. */
  lemma RunReplacesEarlierRun(t: Tree, rootFolder: Path, todayDateString: string,
                              statements: seq<Statement>, responses: seq<Option<string>>,
                              slug: string -> string)
    requires |responses| == |statements|
    ensures var todayFolder := Join(rootFolder, todayDateString);
      var prepared := SetUp(t, rootFolder, todayDateString);
      todayFolder in prepared &&
      AfterScrape(prepared, todayFolder, statements, responses, slug)[todayFolder]
        == Written(statements[..Delivered(responses)], responses, slug)
  {
    SetUpEffect(t, rootFolder, todayDateString);
    var written := Written(statements[..Delivered(responses)], responses, slug);
    assert map[] + written == written;
  }

  /** The store the script works on through `js-better-fs`. */
  class Store {
    var tree: Tree

    constructor (initial: Tree)
      ensures tree == initial
    {
      tree := initial;
    }

    /** `fs.exists(dir)`. */
    method Exists(dir: Path) returns (b: bool)
      ensures b <==> dir in tree
    {
      b := dir in tree;
    }

    /** `fs.createDir(dir)`, called only where `dir` does not exist. */
    method CreateDir(dir: Path)
      requires dir !in tree
      modifies this
      ensures tree == old(tree)[dir := map[]]
    {
      tree := tree[dir := map[]];
    }

    /** `fs.rmDirectory(dir)`: removes `dir` and everything beneath it. The
        recursive removal is assumed of the library; the script only relies
        on it to clean today's folder. */
    method RmDirectory(dir: Path)
      requires dir in tree
      modifies this
      ensures tree == RemoveTree(old(tree), dir)
    {
      tree := RemoveTree(tree, dir);
    }

    /** `fs.writeFile(folder + "/" + name, text)` into an existing folder,
        replacing any file of that name. */
    method WriteFile(folder: Path, name: string, text: string)
      requires folder in tree
      modifies this
      ensures tree == old(tree)[folder := old(tree)[folder][name := text]]
    {
      tree := tree[folder := tree[folder][name := text]];
    }

    /** Lines 44-47: write `html` under the save name of `fileName`. */
    method SaveHtml(html: string, folder: Path, fileName: string)
      requires folder in tree
      modifies this
      ensures tree == old(tree)[folder := old(tree)[folder][SaveName(fileName) := html]]
    {
      var saveName := SaveName(fileName);
      WriteFile(folder, saveName, html);
    }

    /** Lines 28-41. */
    method FolderSetup(rootFolder: Path, todayDateString: string)
      modifies this
      ensures tree == SetUp(old(tree), rootFolder, todayDateString)
      ensures rootFolder in tree
      ensures Join(rootFolder, todayDateString) in tree && tree[Join(rootFolder, todayDateString)] == map[]
      ensures forall d :: d in old(tree) && !Within(d, Join(rootFolder, todayDateString)) ==> d in tree && tree[d] == old(tree)[d]
    {
      var todayFolder := Join(rootFolder, todayDateString);
      var statementsExists := Exists(rootFolder);
      if !statementsExists {
        CreateDir(rootFolder);
      }
      var todayFolderExists := Exists(todayFolder);
      if !todayFolderExists {
        CreateDir(todayFolder);
      } else {
        RmDirectory(todayFolder);
        assert todayFolder !in tree;
        CreateDir(todayFolder);
      }
      SetUpEffect(old(tree), rootFolder, todayDateString);
    }

    /** Lines 50-56: for each statement in order, fetch its page and save the
        body under the slug of its description; `responses[i]` is the outcome
        of the i-th fetch, None when `got` rejects. A rejection ends the loop;
        what was saved before it stays. */
    method Scrape(todayFolder: Path, statements: seq<Statement>, responses: seq<Option<string>>,
                  slug: string -> string) returns (ok: bool)
      requires todayFolder in tree
      requires |responses| == |statements|
      modifies this
      ensures ok <==> Delivered(responses) == |statements|
      ensures tree == AfterScrape(old(tree), todayFolder, statements, responses, slug)
    {
      var i := 0;
      assert old(tree)[todayFolder] + map[] == old(tree)[todayFolder];
      while i < |statements|
        invariant 0 <= i <= |statements|
        invariant forall j :: 0 <= j < i ==> responses[j].Some?
        invariant todayFolder in tree
        invariant tree == old(tree)[todayFolder := old(tree)[todayFolder] + Written(statements[..i], responses, slug)]
      {
        var statement := statements[i];
        var result := responses[i];
        if result.None? {
          return false;
        }
        ghost var written := Written(statements[..i], responses, slug);
        WrittenSnoc(statements, responses, slug, i);
        MergeThenWrite(old(tree)[todayFolder], written, NameOf(statement, slug), result.value);
        SaveHtml(result.value, todayFolder, slug(statement.desc));
        i := i + 1;
      }
      assert statements[..i] == statements;
      ok := true;
    }

    /** The first two steps of `runTasks` (lines 117-121): set the folders up,
        then scrape. When every fetch succeeds, today's folder holds exactly
        the saved statements. */
    method SetUpAndScrape(rootFolder: Path, todayDateString: string, statements: seq<Statement>,
                          responses: seq<Option<string>>, slug: string -> string) returns (ok: bool)
      requires |responses| == |statements|
      modifies this
      ensures ok <==> Delivered(responses) == |statements|
      ensures tree == AfterScrape(SetUp(old(tree), rootFolder, todayDateString),
                                  Join(rootFolder, todayDateString), statements, responses, slug)
      ensures ok ==> tree[Join(rootFolder, todayDateString)] == Written(statements, responses, slug)
    {
      FolderSetup(rootFolder, todayDateString);
      ok := Scrape(Join(rootFolder, todayDateString), statements, responses, slug);
      RunReplacesEarlierRun(old(tree), rootFolder, todayDateString, statements, responses, slug);
      assert ok ==> statements[..Delivered(responses)] == statements;
    }
  }
}
