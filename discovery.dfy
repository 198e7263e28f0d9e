/**
 * Discovery of the files to upload: the exclusion test on slash-normalised
 * paths, the top-down directory walk of `find_files` with its pruning of
 * excluded subdirectories, and the dispatch over the configured roots in
 * `upload`. Each file met is run through the ledger's staleness test.
 */
module Discovery {
  import opened Text
  import opened ModificationLedger

  /** The file system below a walked directory: a listing is the sequence of
      entries `os.walk` reports for one directory, in that order. */
  datatype Node =
    | File(name: string, mtime: nat)
    | Dir(name: string, children: seq<Node>)

  /** What a configured root path names. */
  datatype Entry =
    | Directory(listing: seq<Node>)
    | RegularFile(mtime: nat)
    | Absent  // missing, or neither a directory nor a regular file

  /** `path.replace('\\', '/')`. */
  function Normalize(path: string): (r: string)
    ensures |r| == |path|
    ensures forall k :: 0 <= k < |path| ==> r[k] == (if path[k] == '\\' then '/' else path[k])
  {
    if path == [] then []
    else
      var c := path[|path| - 1];
      Normalize(path[..|path| - 1]) + [if c == '\\' then '/' else c]
  }

  /** POSIX `os.path.join(a, b)`. */
  function PathJoin(a: string, b: string): string
  {
    if StartsWith(b, "/") then b
    else if a == [] || EndsWith(a, "/") then a + b
    else a + "/" + b
  }

  /** `is_excluded`: some pattern occurs in the slash-normalised path. */
  function IsExcluded(path: string, patterns: seq<string>): (r: bool)
    ensures r <==> exists i :: 0 <= i < |patterns| && Contains(Normalize(path), patterns[i])
  {
    if patterns == [] then false
    else Contains(Normalize(path), patterns[|patterns| - 1]) || IsExcluded(path, patterns[..|patterns| - 1])
  }

  /** More patterns exclude at least as much. */
  lemma ExclusionMonotone(path: string, fewer: seq<string>, more: seq<string>)
    requires forall p :: p in fewer ==> p in more
    requires IsExcluded(path, fewer)
    ensures IsExcluded(path, more)
  {
    var i :| 0 <= i < |fewer| && Contains(Normalize(path), fewer[i]);
    assert fewer[i] in more;
    var j :| 0 <= j < |more| && more[j] == fewer[i];
  }

  /** Python's `name.endswith(suffixes)` for a tuple of suffixes. */
  predicate EndsWithAny(name: string, suffixes: seq<string>)
  {
    exists i :: 0 <= i < |suffixes| && EndsWith(name, suffixes[i])
  }

  /** The file of the listing entry `node` under `root`, if it is a file
      with one of the extensions; `root` is already slash-normalised. */
  function FileCandidate(root: string, node: Node, exts: seq<string>): seq<Candidate>
  {
    if node.File? && EndsWithAny(node.name, exts) then [Candidate(Normalize(PathJoin(root, node.name)), node.mtime)]
    else []
  }

  /** The files of one directory listing, in listing order. */
  function FilesIn(root: string, listing: seq<Node>, exts: seq<string>): seq<Candidate>
  {
    if listing == [] then []
    else FilesIn(root, listing[..|listing| - 1], exts) + FileCandidate(root, listing[|listing| - 1], exts)
  }

  /** The files `find_files(top, ...)` meets, in the order it meets them:
      the files of `top` first, then the walks of its subdirectories that
      are not pruned. */
  function Walk(top: string, listing: seq<Node>, exts: seq<string>, pats: seq<string>): seq<Candidate>
    decreases listing, 1
  {
    FilesIn(Normalize(top), listing, exts) + SubWalks(top, listing, exts, pats)
  }

  /** The walks below the subdirectories among `dirs`, entries of `top`. */
  function SubWalks(top: string, dirs: seq<Node>, exts: seq<string>, pats: seq<string>): seq<Candidate>
    decreases dirs, 0
  {
    if dirs == [] then []
    else
      SubWalks(top, dirs[..|dirs| - 1], exts, pats) + SubWalk(top, dirs[|dirs| - 1], exts, pats)
  }

  /** The walk below the entry `node` of `top`: nothing for a file or for a
      pruned subdirectory. */
  function SubWalk(top: string, node: Node, exts: seq<string>, pats: seq<string>): seq<Candidate>
    decreases node, 2
  {
    match node
    case File(_, _) => []
    case Dir(d, children) =>
      if IsExcluded(PathJoin(Normalize(top), d), pats) then [] else Walk(PathJoin(top, d), children, exts, pats)
  }

  lemma {:induction false} PathsAppend(a: seq<Candidate>, b: seq<Candidate>)
    ensures Paths(a + b) == Paths(a) + Paths(b)
  {
    assert forall i :: 0 <= i < |a + b| ==> Paths(a + b)[i] == (Paths(a) + Paths(b))[i];
  }

  lemma FilesInStep(root: string, listing: seq<Node>, k: nat, exts: seq<string>)
    requires k < |listing|
    ensures FilesIn(root, listing[..k + 1], exts) == FilesIn(root, listing[..k], exts) + FileCandidate(root, listing[k], exts)
  {
    assert listing[..k + 1][..k] == listing[..k];
  }

  lemma SubWalksStep(top: string, listing: seq<Node>, k: nat, exts: seq<string>, pats: seq<string>)
    requires k < |listing|
    ensures SubWalks(top, listing[..k + 1], exts, pats) == SubWalks(top, listing[..k], exts, pats) + SubWalk(top, listing[k], exts, pats)
  {
    assert listing[..k + 1][..k] == listing[..k];
  }

  /** A pass over a single candidate is the ledger's test-and-update. */
  lemma SelectOne(records: map<string, nat>, c: Candidate)
    ensures Select(records, [c]) ==
      if Stale(records, c.path, c.mtime) then Selection([c], records[c.path := c.mtime]) else Selection([], records)
  {
    assert [c][..0] == [];
  }

  /** `find_files(top, exts, pats)`: walk the tree below `top`, queue every
      stale file with one of the extensions and record its time. */
  method FindFiles(ledger: Ledger, top: string, listing: seq<Node>, exts: seq<string>, pats: seq<string>)
    returns (matched: seq<string>)
    modifies ledger
    ensures var sel := Select(old(ledger.records), Walk(top, listing, exts, pats));
      matched == Paths(sel.queued) && ledger.records == sel.records
    ensures ledger.persisted == old(ledger.persisted)
    decreases listing, 1
  {
    ghost var start := ledger.records;
    var files := QueueFiles(ledger, Normalize(top), listing, exts);
    ghost var mid := ledger.records;
    var below := WalkSubdirectories(ledger, top, listing, exts, pats);
    SelectAppend(start, FilesIn(Normalize(top), listing, exts), SubWalks(top, listing, exts, pats));
    PathsAppend(Select(start, FilesIn(Normalize(top), listing, exts)).queued,
                Select(mid, SubWalks(top, listing, exts, pats)).queued);
    matched := files + below;
  }

  /** The loop of `find_files` over the files of one directory. */
  method QueueFiles(ledger: Ledger, root: string, listing: seq<Node>, exts: seq<string>)
    returns (matched: seq<string>)
    modifies ledger
    ensures var sel := Select(old(ledger.records), FilesIn(root, listing, exts));
      matched == Paths(sel.queued) && ledger.records == sel.records
    ensures ledger.persisted == old(ledger.persisted)
  {
    ghost var start := ledger.records;
    matched := [];
    for k := 0 to |listing|
      invariant var sel := Select(start, FilesIn(root, listing[..k], exts));
        matched == Paths(sel.queued) && ledger.records == sel.records
      invariant ledger.persisted == old(ledger.persisted)
    {
      ghost var before := FilesIn(root, listing[..k], exts);
      ghost var mid := ledger.records;
      FilesInStep(root, listing, k, exts);
      ghost var here := FileCandidate(root, listing[k], exts);
      SelectAppend(start, before, here);
      var node := listing[k];
      if node.File? && EndsWithAny(node.name, exts) {
        var path := Normalize(PathJoin(root, node.name));
        var queued := ledger.Consider(path, node.mtime);
        SelectOne(mid, Candidate(path, node.mtime));
        PathsAppend(Select(start, before).queued, Select(mid, here).queued);
        if queued {
          matched := matched + [path];
        } else {
          assert matched + [] == matched;
        }
      } else {
        assert Select(start, before).queued + [] == Select(start, before).queued;
      }
    }
    assert listing[..|listing|] == listing;
  }

  /** The rest of the walk of `find_files` below one directory: each
      subdirectory that is not excluded is walked in turn. */
  method WalkSubdirectories(ledger: Ledger, top: string, listing: seq<Node>, exts: seq<string>, pats: seq<string>)
    returns (matched: seq<string>)
    modifies ledger
    ensures var sel := Select(old(ledger.records), SubWalks(top, listing, exts, pats));
      matched == Paths(sel.queued) && ledger.records == sel.records
    ensures ledger.persisted == old(ledger.persisted)
    decreases listing, 0
  {
    var root := Normalize(top);
    ghost var start := ledger.records;
    matched := [];
    for k := 0 to |listing|
      invariant var sel := Select(start, SubWalks(top, listing[..k], exts, pats));
        matched == Paths(sel.queued) && ledger.records == sel.records
      invariant ledger.persisted == old(ledger.persisted)
    {
      ghost var before := SubWalks(top, listing[..k], exts, pats);
      SubWalksStep(top, listing, k, exts, pats);
      var node := listing[k];
      if node.Dir? && !IsExcluded(PathJoin(root, node.name), pats) {
        ghost var mid := ledger.records;
        var sub := FindFiles(ledger, PathJoin(top, node.name), node.children, exts, pats);
        ghost var walked := Walk(PathJoin(top, node.name), node.children, exts, pats);
        SelectAppend(start, before, walked);
        PathsAppend(Select(start, before).queued, Select(mid, walked).queued);
        matched := matched + sub;
      } else {
        assert before + [] == before;
      }
    }
    assert listing[..|listing|] == listing;
  }

  // ---- properties of the walk ----

  predicate NoBackslash(s: string)
  {
    forall k :: 0 <= k < |s| ==> s[k] != '\\'
  }

  lemma NormalizeKeepsSuffix(s: string, suffix: string)
    requires EndsWith(s, suffix) && NoBackslash(suffix)
    ensures EndsWith(Normalize(s), suffix)
  {
    var n := Normalize(s);
    var o := |s| - |suffix|;
    forall k | 0 <= k < |suffix| ensures n[o..][k] == suffix[k] {
      assert s[o + k] == suffix[k];
    }
  }

  lemma JoinEndsWithName(a: string, b: string, suffix: string)
    requires EndsWith(b, suffix)
    ensures EndsWith(PathJoin(a, b), suffix)
  {
    var j := PathJoin(a, b);
    assert j[|j| - |b|..] == b;
    assert j[|j| - |suffix|..] == b[|b| - |suffix|..];
  }

  /** Every file a walk meets ends with one of the extensions, whatever the
      exclusion patterns: files are tested by extension only. */
  lemma {:induction false} WalkKeepsExtensions(top: string, listing: seq<Node>, exts: seq<string>, pats: seq<string>)
    requires forall i :: 0 <= i < |exts| ==> NoBackslash(exts[i])
    ensures forall c | c in Walk(top, listing, exts, pats) :: EndsWithAny(c.path, exts)
    decreases listing, 1
  {
    FilesInKeepExtensions(Normalize(top), listing, exts);
    SubWalksKeepExtensions(top, listing, exts, pats);
  }

  lemma {:induction false} FilesInKeepExtensions(root: string, listing: seq<Node>, exts: seq<string>)
    requires forall i :: 0 <= i < |exts| ==> NoBackslash(exts[i])
    ensures forall c | c in FilesIn(root, listing, exts) :: EndsWithAny(c.path, exts)
  {
    if listing != [] {
      FilesInKeepExtensions(root, listing[..|listing| - 1], exts);
      var node := listing[|listing| - 1];
      if node.File? && EndsWithAny(node.name, exts) {
        var i :| 0 <= i < |exts| && EndsWith(node.name, exts[i]);
        JoinEndsWithName(root, node.name, exts[i]);
        NormalizeKeepsSuffix(PathJoin(root, node.name), exts[i]);
      }
    }
  }

  lemma {:induction false} SubWalksKeepExtensions(top: string, dirs: seq<Node>, exts: seq<string>, pats: seq<string>)
    requires forall i :: 0 <= i < |exts| ==> NoBackslash(exts[i])
    ensures forall c | c in SubWalks(top, dirs, exts, pats) :: EndsWithAny(c.path, exts)
    decreases dirs, 0
  {
    if dirs != [] {
      SubWalksKeepExtensions(top, dirs[..|dirs| - 1], exts, pats);
      SubWalkKeepsExtensions(top, dirs[|dirs| - 1], exts, pats);
    }
  }

  lemma {:induction false} SubWalkKeepsExtensions(top: string, node: Node, exts: seq<string>, pats: seq<string>)
    requires forall i :: 0 <= i < |exts| ==> NoBackslash(exts[i])
    ensures forall c | c in SubWalk(top, node, exts, pats) :: EndsWithAny(c.path, exts)
    decreases node, 2
  {
    match node
    case File(_, _) =>
    case Dir(d, children) =>
      if !IsExcluded(PathJoin(Normalize(top), d), pats) {
        WalkKeepsExtensions(PathJoin(top, d), children, exts, pats);
      }
  }

  /** The files of a prefix of a listing are among the files of the listing. */
  lemma {:induction false} FilesInPrefix(root: string, listing: seq<Node>, j: nat, exts: seq<string>)
    requires j <= |listing|
    ensures forall c | c in FilesIn(root, listing[..j], exts) :: c in FilesIn(root, listing, exts)
    decreases |listing|
  {
    if j < |listing| {
      var init := listing[..|listing| - 1];
      assert init[..j] == listing[..j];
      FilesInPrefix(root, init, j, exts);
    } else {
      assert listing[..j] == listing;
    }
  }

  /** The walks below a prefix of a listing are among the walks below the listing. */
  lemma {:induction false} SubWalksPrefix(top: string, dirs: seq<Node>, j: nat, exts: seq<string>, pats: seq<string>)
    requires j <= |dirs|
    ensures forall c | c in SubWalks(top, dirs[..j], exts, pats) :: c in SubWalks(top, dirs, exts, pats)
    decreases |dirs|
  {
    if j < |dirs| {
      var init := dirs[..|dirs| - 1];
      assert init[..j] == dirs[..j];
      SubWalksPrefix(top, init, j, exts, pats);
    } else {
      assert dirs[..j] == dirs;
    }
  }

  /** The converse of pruning: a file of `top` with one of the extensions is
      met by the walk, and so is everything met below a subdirectory that is
      not excluded. */
  lemma WalkReachesEntries(top: string, listing: seq<Node>, k: nat, exts: seq<string>, pats: seq<string>)
    requires k < |listing|
    ensures var node := listing[k];
      node.File? && EndsWithAny(node.name, exts) ==>
        Candidate(Normalize(PathJoin(Normalize(top), node.name)), node.mtime) in Walk(top, listing, exts, pats)
    ensures var node := listing[k];
      node.Dir? && !IsExcluded(PathJoin(Normalize(top), node.name), pats) ==>
        forall c | c in Walk(PathJoin(top, node.name), node.children, exts, pats) :: c in Walk(top, listing, exts, pats)
  {
    FilesInStep(Normalize(top), listing, k, exts);
    FilesInPrefix(Normalize(top), listing, k + 1, exts);
    SubWalksStep(top, listing, k, exts, pats);
    SubWalksPrefix(top, listing, k + 1, exts, pats);
  }

  /** Listings that agree entry by entry on what each entry contributes
      give the same files and the same walks below. */
  lemma {:induction false} AgreeingListings(top: string, l1: seq<Node>, l2: seq<Node>, j: nat, exts: seq<string>, pats: seq<string>)
    requires |l1| == |l2| && j <= |l1|
    requires forall i :: 0 <= i < j ==>
      FileCandidate(Normalize(top), l1[i], exts) == FileCandidate(Normalize(top), l2[i], exts)
      && SubWalk(top, l1[i], exts, pats) == SubWalk(top, l2[i], exts, pats)
    ensures FilesIn(Normalize(top), l1[..j], exts) == FilesIn(Normalize(top), l2[..j], exts)
    ensures SubWalks(top, l1[..j], exts, pats) == SubWalks(top, l2[..j], exts, pats)
  {
    if j > 0 {
      AgreeingListings(top, l1, l2, j - 1, exts, pats);
      FilesInStep(Normalize(top), l1, j - 1, exts);
      FilesInStep(Normalize(top), l2, j - 1, exts);
      SubWalksStep(top, l1, j - 1, exts, pats);
      SubWalksStep(top, l2, j - 1, exts, pats);
    }
  }

  /** Nothing below a pruned subdirectory is returned: replacing its
      contents with anything leaves the walk unchanged. */
  lemma PrunedContentsIgnored(top: string, listing: seq<Node>, k: nat, other: seq<Node>, exts: seq<string>, pats: seq<string>)
    requires k < |listing| && listing[k].Dir?
    requires IsExcluded(PathJoin(Normalize(top), listing[k].name), pats)
    ensures Walk(top, listing[k := Dir(listing[k].name, other)], exts, pats) == Walk(top, listing, exts, pats)
  {
    var changed := listing[k := Dir(listing[k].name, other)];
    AgreeingListings(top, listing, changed, |listing|, exts, pats);
    assert listing[..|listing|] == listing;
    assert changed[..|changed|] == changed;
  }

  lemma NormalizeUnchanged(s: string)
    requires NoBackslash(s)
    ensures Normalize(s) == s
  {
  }

  /** A plain name joined below a directory that does not end in '/'. */
  lemma JoinPlain(a: string, b: string)
    requires a != [] && a[|a| - 1] != '/' && (b == [] || b[0] != '/')
    ensures PathJoin(a, b) == a + "/" + b
  {
  }

  /** A single path component: no '/' and no backslash. */
  predicate IsPlainName(s: string)
  {
    s != [] && forall k :: 0 <= k < |s| ==> s[k] != '/' && s[k] != '\\'
  }

  /** The pattern `name + "/"` does not exclude the directory `top/name`
      itself, whose joined path has no trailing '/', when `top` is a single
      component shorter than `name` (as "vault" and ".obsidian"). */
  lemma SlashPatternSparesDirectory(top: string, name: string)
    requires IsPlainName(top) && IsPlainName(name) && |top| < |name|
    ensures !IsExcluded(PathJoin(top, name), [name + "/"])
  {
    var pat := name + "/";
    var dir := top + "/" + name;
    JoinPlain(top, name);
    NormalizeUnchanged(dir);
    forall i | 0 <= i <= |dir| ensures !OccursAt(dir, pat, i) {
      if i + |pat| <= |dir| {
        var j := i + |name|;
        assert dir[j] == name[j - |top| - 1];
        assert dir[i..i + |pat|][|name|] != pat[|name|];
      }
    }
  }

  /** ... but it excludes every directory below `top/name`. */
  lemma SlashPatternPrunesBelow(top: string, name: string, sub: string)
    requires IsPlainName(top) && IsPlainName(name) && IsPlainName(sub)
    ensures IsExcluded(PathJoin(PathJoin(top, name), sub), [name + "/"])
  {
    var pat := name + "/";
    var dir := top + "/" + name;
    JoinPlain(top, name);
    JoinPlain(dir, sub);
    var below := dir + "/" + sub;
    NormalizeUnchanged(below);
    assert below == top + "/" + (pat + sub);
    assert OccursAt(below, pat, |top| + 1);
  }

  /** The files of a two-entry listing. */
  lemma FilesInPair(root: string, first: Node, second: Node, exts: seq<string>)
    ensures FilesIn(root, [first, second], exts) == FileCandidate(root, first, exts) + FileCandidate(root, second, exts)
  {
    var listing := [first, second];
    assert listing[..|listing| - 1] == [first];
    assert [first][..0] == [];
    assert FilesIn(root, [first], exts) == [] + FileCandidate(root, first, exts);
    assert [] + FileCandidate(root, first, exts) == FileCandidate(root, first, exts);
  }

  /** The walks below a two-entry listing. */
  lemma SubWalksPair(top: string, first: Node, second: Node, exts: seq<string>, pats: seq<string>)
    ensures SubWalks(top, [first, second], exts, pats) == SubWalk(top, first, exts, pats) + SubWalk(top, second, exts, pats)
  {
    var listing := [first, second];
    assert listing[..|listing| - 1] == [first];
    assert [first][..0] == [];
    assert SubWalks(top, [first], exts, pats) == [] + SubWalk(top, first, exts, pats);
    assert [] + SubWalk(top, first, exts, pats) == SubWalk(top, first, exts, pats);
  }

  /** The walk of a directory holding one file and one pruned subdirectory
      returns that file only. */
  lemma WalkFileAndPrunedDirectory(dir: string, file: string, mtime: nat, sub: string, inner: seq<Node>,
                                   exts: seq<string>, pats: seq<string>)
    requires NoBackslash(dir) && dir != [] && dir[|dir| - 1] != '/'
    requires IsPlainName(file) && EndsWithAny(file, exts)
    requires IsExcluded(PathJoin(dir, sub), pats)
    ensures Walk(dir, [File(file, mtime), Dir(sub, inner)], exts, pats) == [Candidate(dir + "/" + file, mtime)]
  {
    NormalizeUnchanged(dir);
    var path := dir + "/" + file;
    JoinPlain(dir, file);
    NormalizeUnchanged(path);
    var found := [Candidate(path, mtime)];
    FilesInPair(dir, File(file, mtime), Dir(sub, inner), exts);
    assert FilesIn(dir, [File(file, mtime), Dir(sub, inner)], exts) == found + [];
    SubWalksPair(dir, File(file, mtime), Dir(sub, inner), exts, pats);
    assert SubWalk(dir, Dir(sub, inner), exts, pats) == [];
    assert SubWalks(dir, [File(file, mtime), Dir(sub, inner)], exts, pats) == [] + [];
    assert found + [] + ([] + []) == found;
  }

  /** Walking `top` whose only entry is the directory `name`, holding a file
      and a subdirectory, with the single pattern `name + "/"`: the file is
      returned although its path contains the pattern, since files are
      never tested for exclusion, and nothing below the subdirectory is. */
  lemma SlashPatternWalk(top: string, name: string, file: string, mtime: nat,
                         sub: string, inner: seq<Node>, exts: seq<string>)
    requires IsPlainName(top) && IsPlainName(name) && |top| < |name|
    requires IsPlainName(file) && EndsWithAny(file, exts) && IsPlainName(sub)
    ensures Walk(top, [Dir(name, [File(file, mtime), Dir(sub, inner)])], exts, [name + "/"])
      == [Candidate(top + "/" + name + "/" + file, mtime)]
  {
    var pat := name + "/";
    var dir := top + "/" + name;
    JoinPlain(top, name);
    NormalizeUnchanged(top);
    SlashPatternSparesDirectory(top, name);
    SlashPatternPrunesBelow(top, name, sub);
    WalkFileAndPrunedDirectory(dir, file, mtime, sub, inner, exts, [pat]);
    var topListing := [Dir(name, [File(file, mtime), Dir(sub, inner)])];
    FilesInStep(top, topListing, 0, exts);
    SubWalksStep(top, topListing, 0, exts, [pat]);
    assert topListing[..0] == [];
    assert topListing[..1] == topListing;
  }

  // ---- the configured roots ----

  /** What one configured root contributes: a directory is walked without
      testing the directory itself for exclusion; a regular file is taken
      when it has one of the extensions and is not excluded. */
  function RootCandidates(path: string, entry: Entry, exts: seq<string>, pats: seq<string>): seq<Candidate>
  {
    match entry
    case Directory(listing) => Walk(path, listing, exts, pats)
    case RegularFile(mtime) =>
      if EndsWithAny(path, exts) && !IsExcluded(path, pats) then [Candidate(path, mtime)] else []
    case Absent => []
  }

  /** The roots `upload` reports as an invalid directory or file type. */
  predicate IsInvalidRoot(path: string, entry: Entry, exts: seq<string>, pats: seq<string>)
  {
    match entry
    case Directory(_) => false
    case RegularFile(_) => !EndsWithAny(path, exts) || IsExcluded(path, pats)
    case Absent => true
  }

  /** The files the configured roots contribute, root by root. */
  function AllCandidates(roots: seq<string>, lookup: string -> Entry, exts: seq<string>, pats: seq<string>): seq<Candidate>
  {
    if roots == [] then []
    else
      var path := roots[|roots| - 1];
      AllCandidates(roots[..|roots| - 1], lookup, exts, pats) + RootCandidates(path, lookup(path), exts, pats)
  }

  /** The invalid roots, in order. */
  function InvalidRoots(roots: seq<string>, lookup: string -> Entry, exts: seq<string>, pats: seq<string>): seq<string>
  {
    if roots == [] then []
    else
      var path := roots[|roots| - 1];
      InvalidRoots(roots[..|roots| - 1], lookup, exts, pats)
      + (if IsInvalidRoot(path, lookup(path), exts, pats) then [path] else [])
  }

  /** One configured root in the loop of `upload`: a directory is walked,
      a regular file with one of the extensions that is not excluded goes
      through the staleness test, anything else is reported. */
  method DiscoverRoot(ledger: Ledger, path: string, entry: Entry, exts: seq<string>, pats: seq<string>)
    returns (found: seq<string>, invalid: bool)
    modifies ledger
    ensures var sel := Select(old(ledger.records), RootCandidates(path, entry, exts, pats));
      found == Paths(sel.queued) && ledger.records == sel.records
    ensures invalid == IsInvalidRoot(path, entry, exts, pats)
    ensures ledger.persisted == old(ledger.persisted)
  {
    found, invalid := [], false;
    match entry {
      case Directory(listing) =>
        found := FindFiles(ledger, path, listing, exts, pats);
      case RegularFile(mtime) =>
        if EndsWithAny(path, exts) && !IsExcluded(path, pats) {
          var c := Candidate(path, mtime);
          SelectOne(ledger.records, c);
          var queued := ledger.Consider(path, mtime);
          if queued {
            assert Paths([c]) == [path];
            found := [path];
          }
        } else {
          invalid := true;
        }
      case Absent =>
        invalid := true;
    }
  }

  /** The loop of `upload` over the configured roots. */
  method Discover(ledger: Ledger, roots: seq<string>, lookup: string -> Entry, exts: seq<string>, pats: seq<string>)
    returns (files: seq<string>, invalid: seq<string>)
    modifies ledger
    ensures var sel := Select(old(ledger.records), AllCandidates(roots, lookup, exts, pats));
      files == Paths(sel.queued) && ledger.records == sel.records
    ensures invalid == InvalidRoots(roots, lookup, exts, pats)
    ensures ledger.persisted == old(ledger.persisted)
  {
    ghost var start := ledger.records;
    files := [];
    invalid := [];
    for k := 0 to |roots|
      invariant var sel := Select(start, AllCandidates(roots[..k], lookup, exts, pats));
        files == Paths(sel.queued) && ledger.records == sel.records
      invariant invalid == InvalidRoots(roots[..k], lookup, exts, pats)
      invariant ledger.persisted == old(ledger.persisted)
    {
      assert roots[..k + 1][..k] == roots[..k];
      ghost var before := AllCandidates(roots[..k], lookup, exts, pats);
      ghost var prior := Select(start, before);
      ghost var mid := ledger.records;
      var path := roots[k];
      var entry := lookup(path);
      ghost var here := RootCandidates(path, entry, exts, pats);
      assert AllCandidates(roots[..k + 1], lookup, exts, pats) == before + here;
      assert InvalidRoots(roots[..k + 1], lookup, exts, pats)
        == invalid + (if IsInvalidRoot(path, entry, exts, pats) then [path] else []);
      var found, bad := DiscoverRoot(ledger, path, entry, exts, pats);
      SelectAppend(start, before, here);
      PathsAppend(prior.queued, Select(mid, here).queued);
      files := files + found;
      if bad {
        invalid := invalid + [path];
      } else {
        assert invalid + [] == invalid;
      }
    }
    assert roots[..|roots|] == roots;
  }
}
