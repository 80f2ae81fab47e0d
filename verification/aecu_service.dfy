/**
  The script-selection logic of the AECU service (`AecuServiceImpl`): which
  content-tree nodes are upgrade scripts to run, given the system's active
  run modes.

  A folder is descended into when its primary type is one of the three
  folder types and its name matches the run modes; any other node is a
  candidate when its name is a valid script name. The host's resource
  resolver becomes a function from paths to nodes and the run modes an
  explicit set of strings.
 */
module AecuService {
  import opened Wrappers
  import opened JavaString

  /** A resource of the content tree, with its children in repository order. */
  datatype Node = Node(name: string, path: string, primaryType: Option<string>, children: seq<Node>)

  /** The service resource resolver: a path resolves to a node, or to nothing (`null`). */
  type Resolver = string -> Option<Node>

  /** The single exception type of the service, carrying its message. */
  datatype AecuException = AecuException(message: string)

  const PathIsNull := AecuException("Path is null")
  const PathIsInvalid := AecuException("Path is invalid")
  const NoServiceResolver := AecuException("Unable to get service resource resolver")

  /** The primary types of the three container node types. */
  const SlingFolder := "sling:Folder"
  const SlingOrderedFolder := "sling:OrderedFolder"
  const NtFolder := "nt:folder"
  const FolderTypes: set<string> := {SlingFolder, SlingOrderedFolder, NtFolder}

  /** The file extension of a script, and the marker of a fallback script. */
  const ScriptExtension := ".groovy"
  const FallbackMarker := ".fallback."

  // ---------------------------------------------------------------------------
  // Folder classification
  // ---------------------------------------------------------------------------

  /** A node is a folder when its `jcr:primaryType` is one of the folder types; a missing type is not. */
  function IsFolder(primaryType: Option<string>): (r: bool)
    ensures r <==> primaryType.Some? && primaryType.value in FolderTypes
    ensures primaryType.None? ==> !r
  {
    primaryType == Some(SlingFolder)
    || primaryType == Some(SlingOrderedFolder)
    || primaryType == Some(NtFolder)
  }

  // ---------------------------------------------------------------------------
  // Run-mode matching
  // ---------------------------------------------------------------------------

  /** Java's `containsAll`: every mode of a `.`-separated combination is active. */
  predicate CombinationActive(combination: string, runModes: set<string>) {
    forall m :: m in Split(combination, '.') ==> m in runModes
  }

  /** The loop over the combinations: true as soon as one combination is wholly active. */
  function AnyCombinationActive(combinations: seq<string>, runModes: set<string>): (r: bool)
    ensures r <==> exists i :: 0 <= i < |combinations| && CombinationActive(combinations[i], runModes)
  {
    if |combinations| == 0 then false
    else if CombinationActive(combinations[0], runModes) then true
    else
      var r := AnyCombinationActive(combinations[1..], runModes);
      assert forall i :: 1 <= i < |combinations| ==> combinations[1..][i - 1] == combinations[i];
      r
  }

  /** The `;`-separated combinations in the text after the first `.` of a name. */
  function Combinations(name: string): seq<string>
    requires '.' in name
  {
    Split(name[IndexOf(name, '.') + 1..], ';')
  }

  /**
    Whether a folder name selects the active run modes: a name without `.`
    always does; otherwise some combination must be wholly active.
   */
  function MatchesRunModes(name: string, runModes: set<string>): (r: bool)
    ensures '.' !in name ==> r
    ensures '.' in name ==> (r <==> exists c :: c in Combinations(name) && CombinationActive(c, runModes))
  {
    if '.' !in name then true
    else AnyCombinationActive(Combinations(name), runModes)
  }

  /** Activating more run modes never deselects a folder. */
  lemma {:induction false} MatchesRunModesMonotone(name: string, runModes: set<string>, more: set<string>)
    requires runModes <= more
    requires MatchesRunModes(name, runModes)
    ensures MatchesRunModes(name, more)
  {
    if '.' in name {
      var c :| c in Combinations(name) && CombinationActive(c, runModes);
      assert CombinationActive(c, more);
    }
  }

  /** A run-mode token as written in a folder name: not empty, no `.` and no `;`. */
  predicate IsRunModeToken(t: string) {
    t != "" && '.' !in t && ';' !in t
  }

  /** A non-empty list of run-mode tokens: one `.`-separated combination. */
  predicate IsCombination(tokens: seq<string>) {
    |tokens| > 0 && forall j :: 0 <= j < |tokens| ==> IsRunModeToken(tokens[j])
  }

  /** At least one combination, each of them well formed. */
  predicate WellFormedCombinations(combinations: seq<seq<string>>) {
    |combinations| > 0 && forall i :: 0 <= i < |combinations| ==> IsCombination(combinations[i])
  }

  /** Every token of one combination is an active run mode. */
  predicate AllActive(tokens: seq<string>, runModes: set<string>) {
    forall t :: t in tokens ==> t in runModes
  }

  /** Each combination written out with `.` between its tokens. */
  function JoinTokens(combinations: seq<seq<string>>): (r: seq<string>)
    ensures |r| == |combinations|
    ensures forall i :: 0 <= i < |r| ==> r[i] == Join(combinations[i], '.')
  {
    if |combinations| == 0 then [] else [Join(combinations[0], '.')] + JoinTokens(combinations[1..])
  }

  /** The folder name `base.c1;c2;...` selecting any of the given run-mode combinations. */
  function FolderName(base: string, combinations: seq<seq<string>>): string {
    base + "." + Join(JoinTokens(combinations), ';')
  }

  /** A character absent from every piece and different from the separator is absent from their join. */
  lemma {:induction false} JoinAvoids(parts: seq<string>, sep: char, c: char)
    requires c != sep
    requires forall i :: 0 <= i < |parts| ==> c !in parts[i]
    ensures c !in Join(parts, sep)
    decreases |parts|
  {
    if |parts| > 1 {
      JoinAvoids(parts[1..], sep, c);
    }
  }

  /** The join of pieces whose first piece is not empty is not empty. */
  lemma JoinNonEmpty(parts: seq<string>, sep: char)
    requires |parts| > 0 && parts[0] != ""
    ensures Join(parts, sep) != ""
  {
  }

  /** A combination written with `.` is wholly active exactly when all its tokens are. */
  lemma CombinationActiveTokens(tokens: seq<string>, runModes: set<string>)
    requires IsCombination(tokens)
    ensures CombinationActive(Join(tokens, '.'), runModes) <==> AllActive(tokens, runModes)
  {
    SplitJoin(tokens, '.');
  }

  /**
    Run-mode matching as the folder-name convention means it: the name
    `base.c1;c2;...` matches exactly when some combination has all its
    tokens active.
   */
  lemma FolderNameMatches(base: string, combinations: seq<seq<string>>, runModes: set<string>)
    requires '.' !in base
    requires WellFormedCombinations(combinations)
    ensures MatchesRunModes(FolderName(base, combinations), runModes)
        <==> exists i :: 0 <= i < |combinations| && AllActive(combinations[i], runModes)
  {
    var encoded := JoinTokens(combinations);
    var suffix := Join(encoded, ';');
    var name := FolderName(base, combinations);
    assert name == base + ['.'] + suffix;
    IndexOfAfterPiece(base, '.', suffix);
    assert name[|base| + 1..] == suffix;
    forall i | 0 <= i < |encoded|
      ensures ';' !in encoded[i]
      ensures encoded[i] != ""
    {
      JoinAvoids(combinations[i], '.', ';');
      JoinNonEmpty(combinations[i], '.');
    }
    SplitJoin(encoded, ';');
    assert Combinations(name) == encoded;
    forall i | 0 <= i < |combinations|
      ensures CombinationActive(encoded[i], runModes) <==> AllActive(combinations[i], runModes)
    {
      CombinationActiveTokens(combinations[i], runModes);
    }
  }

  // ---------------------------------------------------------------------------
  // Script names
  // ---------------------------------------------------------------------------

  /** A script name ends in `.groovy` and is not a fallback script (no `.fallback.` inside). */
  function IsValidScriptName(name: string): (r: bool)
    ensures r <==> EndsWith(name, ScriptExtension) && forall i :: !OccursAt(name, FallbackMarker, i)
  {
    if !EndsWith(name, ScriptExtension) then false
    else if Contains(name, FallbackMarker) then false
    else true
  }

  /** `base.groovy` is a valid script name whenever `base` has no `.`. */
  lemma PlainScriptNameValid(base: string)
    requires '.' !in base
    ensures IsValidScriptName(base + ScriptExtension)
  {
    var s := base + ScriptExtension;
    assert forall k :: 0 <= k < |base| ==> s[k] == base[k];
    forall i
      ensures !OccursAt(s, FallbackMarker, i)
    {
      if 0 <= i && i + |FallbackMarker| <= |s| {
        // the marker is longer than the extension, so it would start inside `base`
        assert s[i..i + |FallbackMarker|][0] == s[i] == base[i] != '.';
      }
    }
  }

  /** A fallback script `base.fallback.groovy` is never a valid script name. */
  lemma FallbackScriptNameInvalid(base: string)
    ensures !IsValidScriptName(base + FallbackMarker + "groovy")
  {
    var s := base + FallbackMarker + "groovy";
    assert s[|base|..|base| + |FallbackMarker|] == FallbackMarker;
    assert OccursAt(s, FallbackMarker, |base|);
  }

  // ---------------------------------------------------------------------------
  // Candidate discovery
  // ---------------------------------------------------------------------------

  /** The walk descends into `n`: a folder whose name matches the run modes. */
  predicate Descends(n: Node, runModes: set<string>) {
    IsFolder(n.primaryType) && MatchesRunModes(n.name, runModes)
  }

  /**
    The candidates below `n`, reached by the path `at`: the children's
    candidates in child order for a folder that is descended into,
    otherwise `at` itself when the name is a valid script name.
   */
  function Walk(n: Node, at: string, runModes: set<string>): seq<string>
    decreases n, 1
  {
    if Descends(n, runModes) then WalkChildren(n.children, runModes)
    else if IsValidScriptName(n.name) then [at]
    else []
  }

  /** The candidates of each child, reached by the child's own path, concatenated in order. */
  function WalkChildren(children: seq<Node>, runModes: set<string>): seq<string>
    decreases children, 0
  {
    if |children| == 0 then []
    else Walk(children[0], children[0].path, runModes) + WalkChildren(children[1..], runModes)
  }

  /** The node reached from `n` by following the child indices in `addr`. */
  function Descendant(n: Node, addr: seq<nat>): Option<Node>
    decreases |addr|
  {
    if |addr| == 0 then Some(n)
    else if addr[0] < |n.children| then Descendant(n.children[addr[0]], addr[1..])
    else None
  }

  /** Every node strictly above the end of `addr` is a folder the walk descends into. */
  predicate OpenRoute(n: Node, addr: seq<nat>, runModes: set<string>)
    decreases |addr|
  {
    |addr| == 0
    || (Descends(n, runModes) && addr[0] < |n.children| && OpenRoute(n.children[addr[0]], addr[1..], runModes))
  }

  /**
    The node at `addr` below `n` is selected as candidate `p`: the walk
    reaches it, it is not itself descended into, its name is a valid script
    name, and `p` is the path it was reached by (`at` for `n` itself).
   */
  predicate SelectedAt(n: Node, at: string, runModes: set<string>, addr: seq<nat>, p: string) {
    && OpenRoute(n, addr, runModes)
    && Descendant(n, addr).Some?
    && var m := Descendant(n, addr).value;
    && !Descends(m, runModes)
    && IsValidScriptName(m.name)
    && p == (if |addr| == 0 then at else m.path)
  }

  /** A path is among the children's candidates exactly when it is among some child's. */
  lemma {:induction false} WalkChildrenMember(children: seq<Node>, runModes: set<string>, p: string)
    ensures p in WalkChildren(children, runModes)
        <==> exists i :: 0 <= i < |children| && p in Walk(children[i], children[i].path, runModes)
    decreases |children|
  {
    if |children| > 0 {
      WalkChildrenMember(children[1..], runModes, p);
      assert forall i :: 1 <= i < |children| ==> children[1..][i - 1] == children[i];
      if p in WalkChildren(children[1..], runModes) {
        var j :| 0 <= j < |children| - 1 && p in Walk(children[1..][j], children[1..][j].path, runModes);
        assert p in Walk(children[j + 1], children[j + 1].path, runModes);
      }
    }
  }

  /** Extending a selection below a child of a descended folder gives a selection below the folder. */
  lemma SelectedAtChild(n: Node, at: string, runModes: set<string>, i: nat, addr: seq<nat>, p: string)
    requires Descends(n, runModes) && i < |n.children|
    requires SelectedAt(n.children[i], n.children[i].path, runModes, addr, p)
    ensures SelectedAt(n, at, runModes, [i] + addr, p)
  {
    assert ([i] + addr)[1..] == addr;
  }

  /** The walk yields exactly the paths of the selected nodes. */
  lemma {:induction false} WalkSelects(n: Node, at: string, runModes: set<string>, p: string)
    ensures p in Walk(n, at, runModes) <==> exists addr :: SelectedAt(n, at, runModes, addr, p)
    decreases n
  {
    if Descends(n, runModes) {
      WalkChildrenMember(n.children, runModes, p);
      if p in Walk(n, at, runModes) {
        var i :| 0 <= i < |n.children| && p in Walk(n.children[i], n.children[i].path, runModes);
        WalkSelects(n.children[i], n.children[i].path, runModes, p);
        var addr :| SelectedAt(n.children[i], n.children[i].path, runModes, addr, p);
        SelectedAtChild(n, at, runModes, i, addr, p);
      }
      if exists addr :: SelectedAt(n, at, runModes, addr, p) {
        var addr :| SelectedAt(n, at, runModes, addr, p);
        assert |addr| > 0;
        var i := addr[0];
        assert SelectedAt(n.children[i], n.children[i].path, runModes, addr[1..], p);
        WalkSelects(n.children[i], n.children[i].path, runModes, p);
      }
    } else {
      if p in Walk(n, at, runModes) {
        assert SelectedAt(n, at, runModes, [], p);
      }
      if exists addr :: SelectedAt(n, at, runModes, addr, p) {
        var addr :| SelectedAt(n, at, runModes, addr, p);
        assert |addr| == 0;
      }
    }
  }

  /**
    `findCandidates`: a null path and a path that resolves to nothing are
    errors; otherwise the candidates are exactly the paths of the nodes the
    walk selects below the resolved node.
   */
  function FindCandidates(resolve: Resolver, runModes: set<string>, path: Option<string>): (r: Result<seq<string>, AecuException>)
    ensures path.None? ==> r == Failure(PathIsNull)
    ensures path.Some? && resolve(path.value).None? ==> r == Failure(PathIsInvalid)
    ensures r.Success? <==> path.Some? && resolve(path.value).Some?
    ensures r.Success? ==>
              forall p :: (p in r.value <==> exists addr :: SelectedAt(resolve(path.value).value, path.value, runModes, addr, p))
  {
    match path
    case None => Failure(PathIsNull)
    case Some(p) =>
      match resolve(p)
      case None => Failure(PathIsInvalid)
      case Some(n) =>
        var r := Walk(n, p, runModes);
        assert forall q :: q in r <==> exists addr :: SelectedAt(n, p, runModes, addr, q) by {
          forall q
            ensures q in r <==> exists addr :: SelectedAt(n, p, runModes, addr, q)
          {
            WalkSelects(n, p, runModes, q);
          }
        }
        Success(r)
  }

  /**
    A node the walk does not enter (a non-folder, or a folder failing the
    run-mode check) yields exactly its own path when its name is a valid
    script name and nothing otherwise: none of its descendants is ever selected.
   */
  lemma NodeNotEntered(n: Node, at: string, runModes: set<string>)
    requires !Descends(n, runModes)
    ensures Walk(n, at, runModes) == (if IsValidScriptName(n.name) then [at] else [])
    ensures forall addr, p :: SelectedAt(n, at, runModes, addr, p) ==> |addr| == 0
  {
  }

  /**
    The loop of `findCandidates` over a folder's children as the source
    writes it: `findCandidates` on each child's path, results appended in
    order; a child that fails makes the whole loop fail.
   */
  function ChildrenByPath(resolve: Resolver, runModes: set<string>, children: seq<Node>): (r: Result<seq<string>, AecuException>)
    ensures r.Failure? <==> exists i :: 0 <= i < |children| && resolve(children[i].path).None?
    decreases |children|
  {
    if |children| == 0 then Success([])
    else
      var rest := ChildrenByPath(resolve, runModes, children[1..]);
      assert forall i :: 1 <= i < |children| ==> children[1..][i - 1] == children[i];
      match FindCandidates(resolve, runModes, Some(children[0].path))
      case Failure(e) => Failure(e)
      case Success(first) =>
        match rest
        case Failure(e) => Failure(e)
        case Success(others) => Success(first + others)
  }

  /** Each child's path resolves to that child. */
  predicate ResolvesChildren(resolve: Resolver, children: seq<Node>) {
    forall i :: 0 <= i < |children| ==> resolve(children[i].path) == Some(children[i])
  }

  /** When child paths resolve to the children, the source's loop computes the structural walk. */
  lemma {:induction false} ChildrenByPathWalks(resolve: Resolver, runModes: set<string>, children: seq<Node>)
    requires ResolvesChildren(resolve, children)
    ensures ChildrenByPath(resolve, runModes, children) == Success(WalkChildren(children, runModes))
    decreases |children|
  {
    if |children| > 0 {
      assert forall i :: 1 <= i < |children| - 1 ==> children[1..][i] == children[i + 1];
      assert ResolvesChildren(resolve, children[1..]);
      ChildrenByPathWalks(resolve, runModes, children[1..]);
    }
  }

  /**
    For a folder that is descended into, the candidates are the results of
    `findCandidates` on each child's path, concatenated in child order.
   */
  lemma FolderCandidatesInChildOrder(resolve: Resolver, runModes: set<string>, path: string)
    requires resolve(path).Some? && Descends(resolve(path).value, runModes)
    requires ResolvesChildren(resolve, resolve(path).value.children)
    ensures FindCandidates(resolve, runModes, Some(path)) == ChildrenByPath(resolve, runModes, resolve(path).value.children)
  {
    ChildrenByPathWalks(resolve, runModes, resolve(path).value.children);
  }

  /** `getFiles`: failing to obtain the service resolver is an error; otherwise discovery decides. */
  function GetFiles(session: Option<Resolver>, runModes: set<string>, path: Option<string>): (r: Result<seq<string>, AecuException>)
    ensures session.None? ==> r == Failure(NoServiceResolver)
    ensures session.Some? ==> r == FindCandidates(session.value, runModes, path)
  {
    match session
    case None => Failure(NoServiceResolver)
    case Some(resolve) => FindCandidates(resolve, runModes, path)
  }
}
