/**
  Concrete selections: the folder names and script names the run-mode and
  naming conventions are documented with, Java's `split` corner cases, and
  a small content tree.
 */
module AecuExamples {
  import opened Wrappers
  import opened JavaString
  import opened AecuService

  /** `x.author;publish.dev` selects `{author}` through its first combination. */
  lemma AlternativeCombinationMatches()
    ensures MatchesRunModes("x.author;publish.dev", {"author"})
  {
    var combinations := [["author"], ["publish", "dev"]];
    assert Join(combinations[1], '.') == "publish.dev";
    assert FolderName("x", combinations) == "x.author;publish.dev";
    assert AllActive(combinations[0], {"author"});
    FolderNameMatches("x", combinations, {"author"});
  }

  /** `x.author.dev` needs both `author` and `dev`, so `{author}` alone is not selected. */
  lemma IncompleteCombinationFails()
    ensures !MatchesRunModes("x.author.dev", {"author"})
  {
    var combinations := [["author", "dev"]];
    assert Join(combinations[0], '.') == "author.dev";
    assert FolderName("x", combinations) == "x.author.dev";
    assert "dev" in combinations[0] && "dev" !in {"author"};
    FolderNameMatches("x", combinations, {"author"});
  }

  /** `x.`: the suffix is empty, which splits to `[""]`, so only the run mode `""` selects it. */
  lemma EmptySuffixNeedsEmptyRunMode(runModes: set<string>)
    ensures MatchesRunModes("x.", runModes) <==> "" in runModes
  {
    var name := "x.";
    assert name == "x" + ['.'] + "";
    IndexOfAfterPiece("x", '.', "");
    assert name[IndexOf(name, '.') + 1..] == "";
    assert Combinations(name) == [""];
    assert Split("", '.') == [""];
  }

  /** `x.;`: the suffix `;` splits to no combination at all, so nothing selects it. */
  lemma SeparatorOnlySuffixNeverMatches(runModes: set<string>)
    ensures !MatchesRunModes("x.;", runModes)
  {
    var name := "x.;";
    assert name == "x" + ['.'] + ";";
    IndexOfAfterPiece("x", '.', ";");
    assert name[IndexOf(name, '.') + 1..] == ";";
    var suffix := ";";
    assert suffix == "" + [';'] + "";
    IndexOfAfterPiece("", ';', "");
    assert SplitAll(suffix, ';') == ["", ""];
    assert Combinations(name) == [];
  }

  /** `x..`: the combination `.` splits to no modes, and an empty list is contained in any set. */
  lemma DotOnlyCombinationAlwaysMatches(runModes: set<string>)
    ensures MatchesRunModes("x..", runModes)
  {
    var name := "x..";
    assert name == "x" + ['.'] + ".";
    IndexOfAfterPiece("x", '.', ".");
    assert name[IndexOf(name, '.') + 1..] == ".";
    assert Combinations(name) == ["."];
    var combination := ".";
    assert combination == "" + ['.'] + "";
    IndexOfAfterPiece("", '.', "");
    assert SplitAll(combination, '.') == ["", ""];
    assert Split(combination, '.') == [];
    assert CombinationActive(combination, runModes);
  }

  /** `upgrade.groovy` is a script. */
  lemma UpgradeScriptValid()
    ensures IsValidScriptName("upgrade.groovy")
  {
    PlainScriptNameValid("upgrade");
    assert "upgrade" + ScriptExtension == "upgrade.groovy";
  }

  /** `upgrade.fallback.groovy` is a fallback script, not a candidate. */
  lemma UpgradeFallbackInvalid()
    ensures !IsValidScriptName("upgrade.fallback.groovy")
  {
    FallbackScriptNameInvalid("upgrade");
    assert "upgrade" + FallbackMarker + "groovy" == "upgrade.fallback.groovy";
  }

  /** `upgrade.txt` lacks the script extension. */
  lemma OtherExtensionInvalid()
    ensures !IsValidScriptName("upgrade.txt")
  {
    assert "upgrade.txt"[4..] != ScriptExtension;
  }

  /** The tree `/root` with `a.groovy` and the folder `sub.author` holding `b.groovy`. */
  const ScriptA := Node("a.groovy", "/root/a.groovy", Some("nt:file"), [])
  const ScriptB := Node("b.groovy", "/root/sub.author/b.groovy", Some("nt:file"), [])
  const AuthorFolder := Node("sub.author", "/root/sub.author", Some(SlingFolder), [ScriptB])
  const Root := Node("root", "/root", Some(SlingOrderedFolder), [ScriptA, AuthorFolder])

  function TreeResolver(path: string): Option<Node> {
    if path == Root.path then Some(Root)
    else if path == ScriptA.path then Some(ScriptA)
    else if path == AuthorFolder.path then Some(AuthorFolder)
    else if path == ScriptB.path then Some(ScriptB)
    else None
  }

  /** A folder `base.mode` is entered exactly when `mode` is active. */
  lemma SingleModeFolder(base: string, mode: string, runModes: set<string>)
    requires '.' !in base
    requires IsRunModeToken(mode)
    ensures MatchesRunModes(base + "." + mode, runModes) <==> mode in runModes
  {
    var combinations := [[mode]];
    assert FolderName(base, combinations) == base + "." + mode;
    assert AllActive(combinations[0], runModes) <==> mode in runModes;
    FolderNameMatches(base, combinations, runModes);
  }

  /** `sub.author` is entered exactly when `author` is active. */
  lemma AuthorFolderSelection(runModes: set<string>)
    ensures MatchesRunModes("sub.author", runModes) <==> "author" in runModes
  {
    SingleModeFolder("sub", "author", runModes);
    assert "sub" + "." + "author" == "sub.author";
  }

  /** `a.groovy` is a script in every configuration. */
  lemma ScriptAWalk(runModes: set<string>)
    ensures Walk(ScriptA, ScriptA.path, runModes) == [ScriptA.path]
  {
    PlainScriptNameValid("a");
    assert "a" + ScriptExtension == ScriptA.name;
    assert !IsFolder(ScriptA.primaryType);
  }

  /** `b.groovy` is a script in every configuration. */
  lemma ScriptBWalk(runModes: set<string>)
    ensures Walk(ScriptB, ScriptB.path, runModes) == [ScriptB.path]
  {
    PlainScriptNameValid("b");
    assert "b" + ScriptExtension == ScriptB.name;
    assert !IsFolder(ScriptB.primaryType);
  }

  /** With `author` active, `sub.author` is entered and contributes `b.groovy`. */
  lemma AuthorFolderEntered(runModes: set<string>)
    requires "author" in runModes
    ensures Walk(AuthorFolder, AuthorFolder.path, runModes) == [ScriptB.path]
  {
    AuthorFolderSelection(runModes);
    ScriptBWalk(runModes);
    assert Descends(AuthorFolder, runModes);
    assert WalkChildren(AuthorFolder.children, runModes) == [ScriptB.path];
  }

  /** Without `author`, `sub.author` is pruned, and its own name is not a script name. */
  lemma AuthorFolderPruned(runModes: set<string>)
    requires "author" !in runModes
    ensures Walk(AuthorFolder, AuthorFolder.path, runModes) == []
  {
    AuthorFolderSelection(runModes);
    assert !EndsWith(AuthorFolder.name, ScriptExtension);
  }

  /** The walk from `/root` visits `a.groovy`, then the folder `sub.author`. */
  lemma RootWalk(runModes: set<string>)
    ensures Walk(Root, Root.path, runModes) == [ScriptA.path] + Walk(AuthorFolder, AuthorFolder.path, runModes)
  {
    assert Descends(Root, runModes);
    ScriptAWalk(runModes);
    assert Root.children[1..] == [AuthorFolder];
    assert WalkChildren([AuthorFolder], runModes) == Walk(AuthorFolder, AuthorFolder.path, runModes);
  }

  /** Discovery from `/root` is the walk from the root node. */
  lemma RootDiscovery(runModes: set<string>)
    ensures FindCandidates(TreeResolver, runModes, Some("/root")) == Success(Walk(Root, "/root", runModes))
  {
    assert TreeResolver("/root") == Some(Root);
  }

  /** Without `author` the walk from the root yields `a.groovy` alone. */
  lemma PublishRootWalk(runModes: set<string>)
    requires "author" !in runModes
    ensures Walk(Root, Root.path, runModes) == [ScriptA.path]
  {
    RootWalk(runModes);
    AuthorFolderPruned(runModes);
  }

  /** With `author` the walk from the root yields `a.groovy`, then `b.groovy`. */
  lemma AuthorRootWalk(runModes: set<string>)
    requires "author" in runModes
    ensures Walk(Root, Root.path, runModes) == [ScriptA.path, ScriptB.path]
  {
    RootWalk(runModes);
    AuthorFolderEntered(runModes);
  }

  /** Without `author` (on a publish system, say) the author-only folder is pruned: only `a.groovy` is found. */
  lemma PublishTreeDiscovery(runModes: set<string>)
    requires "author" !in runModes
    ensures FindCandidates(TreeResolver, runModes, Some("/root")) == Success(["/root/a.groovy"])
  {
    PublishRootWalk(runModes);
    RootDiscovery(runModes);
  }

  /** With `author` active both scripts are found, in tree order. */
  lemma AuthorTreeDiscovery(runModes: set<string>)
    requires "author" in runModes
    ensures FindCandidates(TreeResolver, runModes, Some("/root"))
         == Success(["/root/a.groovy", "/root/sub.author/b.groovy"])
  {
    AuthorRootWalk(runModes);
    RootDiscovery(runModes);
  }

  /** The run modes `{publish}` select exactly `/root/a.groovy`. */
  lemma PublishOnlyDiscovery()
    ensures FindCandidates(TreeResolver, {"publish"}, Some("/root")) == Success(["/root/a.groovy"])
  {
    PublishTreeDiscovery({"publish"});
  }

  /** A folder named `x.groovy` holding `b.groovy`. */
  const ScriptNamedFolder := Node("x.groovy", "/root/x.groovy", Some(NtFolder), [ScriptB])

  /**
    A folder is checked as a script name when it fails the run-mode check:
    unless `groovy` is an active run mode, `x.groovy` is not entered and its
    own path is the only candidate.
   */
  lemma PrunedFolderNamedLikeScript(runModes: set<string>)
    requires "groovy" !in runModes
    ensures Walk(ScriptNamedFolder, ScriptNamedFolder.path, runModes) == [ScriptNamedFolder.path]
  {
    GroovyFolderSelection(runModes);
    GroovyNameValid();
    assert !Descends(ScriptNamedFolder, runModes);
  }

  /** `x.groovy`, read as a folder name, is entered exactly when `groovy` is an active run mode. */
  lemma GroovyFolderSelection(runModes: set<string>)
    ensures MatchesRunModes("x.groovy", runModes) <==> "groovy" in runModes
  {
    SingleModeFolder("x", "groovy", runModes);
    assert "x" + "." + "groovy" == "x.groovy";
  }

  /** `x.groovy` is a valid script name. */
  lemma GroovyNameValid()
    ensures IsValidScriptName("x.groovy")
  {
    PlainScriptNameValid("x");
    assert "x" + ScriptExtension == "x.groovy";
  }

  /** A null path and an unknown path are errors, before anything is collected. */
  lemma DiscoveryErrors()
    ensures FindCandidates(TreeResolver, {"author"}, None) == Failure(PathIsNull)
    ensures FindCandidates(TreeResolver, {"author"}, Some("/missing")) == Failure(PathIsInvalid)
  {
  }
}
