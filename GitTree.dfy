/**
 * The tree builder of `src/main.rs` (`find_git_configs`) over an abstract
 * filesystem. A directory is a value holding the state of its
 * `.git/config` file, whether it can be listed, and its entries in
 * enumeration order; paths are sequences of components.
 */
module GitTree {
  import opened Wrappers
  import opened Text
  import opened GitConfig

  type Path = seq<string>

  /** The state of `<dir>/.git/config`: not a file, a file read as lines, or a file that fails to open or read. */
  datatype Config = Absent | Lines(lines: seq<string>) | Unreadable

  /**
   * One entry of a directory listing: a non-directory, an entry the listing
   * fails to produce, or a subdirectory.
   */
  datatype Entry =
    | File(name: string)
    | BadEntry
    | Dir(name: string, config: Config, listable: bool, entries: seq<Entry>)

  /** The failures that abort the whole walk, each with the offending path. */
  datatype Error =
    | ConfigError(path: Path)
    | ListError(path: Path)
    | EntryError(path: Path)
    | PrefixError(path: Path)

  /** A node of the result: its path, its remotes and its children in order. */
  datatype GitDirectory = GitDirectory(path: Path, remotes: map<string, string>, children: seq<GitDirectory>)

  /** `Path::strip_prefix`: the rest of `p` after `base`, when `base` is a prefix of `p`. */
  function StripPrefix(p: Path, base: Path): (r: Option<Path>)
    ensures r.Some? <==> base <= p
    ensures r.Some? ==> base + r.value == p
  {
    if |base| <= |p| && p[..|base|] == base then
      assert p == p[..|base|] + p[|base|..];
      Some(p[|base|..])
    else
      None
  }

  /** A directory entry's path, stripped of its parent's path, is its own name. */
  lemma StripChild(base: Path, name: string)
    ensures StripPrefix(base + [name], base) == Some([name])
  {
    assert (base + [name])[..|base|] == base;
    assert (base + [name])[|base|..] == [name];
  }

  /** What `try_get_git_config_remotes` yields for a directory at `path`. */
  function ConfigRemotes(path: Path, config: Config): Result<Option<map<string, string>>, Error> {
    match config
    case Absent => Success(None)
    case Unreadable => Failure(ConfigError(path + [".git", "config"]))
    case Lines(lines) => Success(Some(ParseConfig(lines)))
  }

  /**
   * `try_get_git_config_remotes`: no config file means "not a repository"
   * (`None`); a config file, even an empty one, gives `Some` of its remotes;
   * a file that cannot be read is an error naming it.
   */
  method TryGetGitConfigRemotes(path: Path, config: Config) returns (r: Result<Option<map<string, string>>, Error>)
    ensures r == ConfigRemotes(path, config)
    ensures r == Success(None) <==> config.Absent?
    ensures r.Failure? <==> config.Unreadable?
    ensures r.Failure? ==> r.error == ConfigError(path + [".git", "config"])
    ensures config.Lines? ==>
      r.Success? && r.value.Some? && forall name :: Lookup(r.value.value, name) == LastUrlOf(config.lines, name)
    ensures config == Lines([]) ==> r == Success(Some(map[]))
  {
    var gitConfig := path + [".git", "config"];
    match config {
      case Absent =>
        r := Success(None);
      case Unreadable =>
        r := Failure(ConfigError(gitConfig));
      case Lines(lines) =>
        var remotes := ParseGitConfig(lines);
        r := Success(Some(remotes));
    }
  }

  /** The remotes a node shows for its own config: none unless the file was read. */
  function OwnRemotes(config: Config): map<string, string> {
    if config.Lines? then ParseConfig(config.lines) else map[]
  }

  /**
   * The tree `find_git_configs(path, recurse)` returns for directory `d`:
   * the root keeps `path` and its own remotes, whatever lies beneath.
   */
  function Walk(path: Path, d: Entry, recurse: bool): (r: Result<GitDirectory, Error>)
    requires d.Dir?
    ensures r.Success? ==> r.value.path == path && r.value.remotes == OwnRemotes(d.config)
    decreases d, 1
  {
    match ConfigRemotes(path, d.config)
    case Failure(e) => Failure(e)
    case Success(found) =>
      if !d.listable then Failure(ListError(path))
      else
        match Children(path, d, |d.entries|, recurse)
        case Failure(e) => Failure(e)
        case Success(children) =>
          Success(GitDirectory(path, if found.Some? then found.value else map[], children))
  }

  /** The children collected from the first `n` entries of `d`, which lives at `path`. */
  function Children(path: Path, d: Entry, n: nat, recurse: bool): Result<seq<GitDirectory>, Error>
    requires d.Dir? && n <= |d.entries|
    decreases d, 0, n
  {
    if n == 0 then Success([])
    else
      match Children(path, d, n - 1, recurse)
      case Failure(e) => Failure(e)
      case Success(children) =>
        match ChildFor(path, d.entries[n - 1], recurse)
        case Failure(e) => Failure(e)
        case Success(None) => Success(children)
        case Success(Some(child)) => Success(children + [child])
  }

  /** The child node, if any, that entry `e` of the directory at `base` contributes. */
  function ChildFor(base: Path, e: Entry, recurse: bool): Result<Option<GitDirectory>, Error>
    decreases e, 2
  {
    match e
    case File(_) => Success(None)
    case BadEntry => Failure(EntryError(base))
    case Dir(name, config, _, _) =>
      var p := base + [name];
      if recurse then
        match Walk(p, e, true)
        case Failure(err) => Failure(err)
        case Success(sub) =>
          if sub.children != [] || sub.remotes != map[] then
            match StripPrefix(p, base)
            case None => Failure(PrefixError(p))
            case Some(rel) => Success(Some(GitDirectory(rel, sub.remotes, sub.children)))
          else
            Success(None)
      else
        match ConfigRemotes(p, config)
        case Failure(err) => Failure(err)
        case Success(None) => Success(None)
        case Success(Some(remotes)) =>
          match StripPrefix(p, base)
          case None => Failure(PrefixError(p))
          case Some(rel) => Success(Some(GitDirectory(rel, remotes, [])))
  }

  /** Once collecting children fails, it fails with that error to the end of the listing. */
  lemma {:induction false} ChildrenFailurePersists(path: Path, d: Entry, k: nat, n: nat, recurse: bool)
    requires d.Dir? && k <= n <= |d.entries|
    requires Children(path, d, k, recurse).Failure?
    ensures Children(path, d, n, recurse) == Children(path, d, k, recurse)
    decreases n
  {
    if k < n {
      ChildrenFailurePersists(path, d, k, n - 1, recurse);
    }
  }

  /**
   * `find_git_configs`: build the node for `d`, then walk its entries in
   * order, appending one child per contributing subdirectory.
   */
  method FindGitConfigs(path: Path, d: Entry, recurse: bool) returns (r: Result<GitDirectory, Error>)
    requires d.Dir?
    ensures r == Walk(path, d, recurse)
    decreases d, 1
  {
    var current := GitDirectory(path, map[], []);
    var found := TryGetGitConfigRemotes(path, d.config);
    if found.Failure? {
      return Failure(found.error);
    }
    if found.value.Some? {
      current := current.(remotes := found.value.value);
    }
    if !d.listable {
      return Failure(ListError(path));
    }
    for i := 0 to |d.entries|
      invariant current.path == path
      invariant current.remotes == if found.value.Some? then found.value.value else map[]
      invariant Children(path, d, i, recurse) == Success(current.children)
    {
      var child := VisitEntry(path, d.entries[i], recurse);
      if child.Failure? {
        ChildrenFailurePersists(path, d, i + 1, |d.entries|, recurse);
        return Failure(child.error);
      }
      if child.value.Some? {
        current := current.(children := current.children + [child.value.value]);
      }
    }
    return Success(current);
  }

  /**
   * The body of the loop over the entries of the directory at `base`: the
   * child that entry `e` contributes, if any.
   */
  method VisitEntry(base: Path, e: Entry, recurse: bool) returns (r: Result<Option<GitDirectory>, Error>)
    ensures r == ChildFor(base, e, recurse)
    ensures r.Success? && r.value.Some? ==> e.Dir? && r.value.value.path == [e.name]
    decreases e, 2
  {
    ChildForShape(base, e, recurse);
    match e {
      case File(_) =>
        return Success(None);
      case BadEntry =>
        return Failure(EntryError(base));
      case Dir(name, config, _, _) =>
        var p := base + [name];
        // `strip_prefix(dir)?` cannot fail on an entry of `dir` (StripChild)
        StripChild(base, name);
        if recurse {
          var sub := FindGitConfigs(p, e, true);
          if sub.Failure? {
            return Failure(sub.error);
          }
          var child := sub.value;
          if child.children != [] || child.remotes != map[] {
            var rel := StripPrefix(p, base);
            return Success(Some(GitDirectory(rel.value, child.remotes, child.children)));
          }
          return Success(None);
        } else {
          var remotes := TryGetGitConfigRemotes(p, config);
          if remotes.Failure? {
            return Failure(remotes.error);
          }
          if remotes.value.Some? {
            var rel := StripPrefix(p, base);
            return Success(Some(GitDirectory(rel.value, remotes.value.value, [])));
          }
          return Success(None);
        }
    }
  }

  /*
   * Recursive mode.
   */

  /** Below the root, every node carries remotes or children, and its path is one name. */
  ghost predicate Pruned(t: GitDirectory) {
    forall c :: c in t.children ==>
      && (c.remotes != map[] || c.children != [])
      && |c.path| == 1
      && Pruned(c)
  }

  /** In recursive mode every node below the root carries information and a relative path. */
  lemma {:induction false} WalkPruned(path: Path, d: Entry)
    requires d.Dir?
    ensures Walk(path, d, true).Success? ==> Pruned(Walk(path, d, true).value)
    decreases d, 1
  {
    ChildrenPruned(path, d, |d.entries|);
  }

  lemma {:induction false} ChildrenPruned(path: Path, d: Entry, n: nat)
    requires d.Dir? && n <= |d.entries|
    ensures Children(path, d, n, true).Success? ==>
      forall c :: c in Children(path, d, n, true).value ==>
        (c.remotes != map[] || c.children != []) && |c.path| == 1 && Pruned(c)
    decreases d, 0, n
  {
    if n > 0 {
      ChildrenPruned(path, d, n - 1);
      var e := d.entries[n - 1];
      ChildrenStep(path, d, n, true);
      ChildForPruned(path, e);
      PrunedCollect(Children(path, d, n, true), Children(path, d, n - 1, true), ChildFor(path, e, true));
    }
  }

  /** The node one entry contributes, if any, carries information and a one-name path. */
  lemma ChildForPruned(base: Path, e: Entry)
    ensures ChildFor(base, e, true).Success? ==>
      forall c :: c in Contributed(ChildFor(base, e, true).value) ==>
        (c.remotes != map[] || c.children != []) && |c.path| == 1 && Pruned(c)
    decreases e, 2
  {
    if e.Dir? {
      WalkPruned(base + [e.name], e);
      StripChild(base, e.name);
    }
  }

  /** One collecting step keeps every collected node informative, whatever the results are. */
  lemma PrunedCollect(all: Result<seq<GitDirectory>, Error>, earlier: Result<seq<GitDirectory>, Error>,
                      child: Result<Option<GitDirectory>, Error>)
    requires all.Success? <==> earlier.Success? && child.Success?
    requires all.Success? ==> all.value == earlier.value + Contributed(child.value)
    requires earlier.Success? ==>
      forall c :: c in earlier.value ==> (c.remotes != map[] || c.children != []) && |c.path| == 1 && Pruned(c)
    requires child.Success? ==>
      forall c :: c in Contributed(child.value) ==> (c.remotes != map[] || c.children != []) && |c.path| == 1 && Pruned(c)
    ensures all.Success? ==>
      forall c :: c in all.value ==> (c.remotes != map[] || c.children != []) && |c.path| == 1 && Pruned(c)
  {
  }

  /**
   * In recursive mode entry `e` of the directory at `base` is attached as `c`:
   * `e` is a subdirectory whose own walk found remotes or children, and `c`
   * carries exactly those under the entry's name.
   */
  ghost predicate AttachedFrom(base: Path, e: Entry, c: GitDirectory) {
    && e.Dir?
    && Walk(base + [e.name], e, true).Success?
    && var w := Walk(base + [e.name], e, true).value;
       (w.remotes != map[] || w.children != []) && c == GitDirectory([e.name], w.remotes, w.children)
  }

  /** `cs` holds exactly the nodes the entries `es` attach, and every subdirectory among them walks. */
  ghost predicate AttachesExactly(base: Path, es: seq<Entry>, cs: seq<GitDirectory>) {
    && (forall e :: e in es && e.Dir? ==> Walk(base + [e.name], e, true).Success?)
    && (forall e, c :: e in es && AttachedFrom(base, e, c) ==> c in cs)
    && (forall c :: c in cs ==> exists e :: e in es && AttachedFrom(base, e, c))
  }

  /**
   * In recursive mode a subdirectory's subtree is attached if and only if it
   * has remotes or children, and then with those remotes and children.
   */
  lemma WalkAttachesExactly(path: Path, d: Entry)
    requires d.Dir?
    ensures Walk(path, d, true).Success? ==> AttachesExactly(path, d.entries, Walk(path, d, true).value.children)
  {
    ChildrenAttachExactly(path, d, |d.entries|);
    assert d.entries[..|d.entries|] == d.entries;
  }

  lemma {:induction false} ChildrenAttachExactly(path: Path, d: Entry, n: nat)
    requires d.Dir? && n <= |d.entries|
    ensures Children(path, d, n, true).Success? ==>
      AttachesExactly(path, d.entries[..n], Children(path, d, n, true).value)
  {
    if n == 0 {
      assert d.entries[..0] == [];
    } else {
      ChildrenAttachExactly(path, d, n - 1);
      var e := d.entries[n - 1];
      ChildrenStep(path, d, n, true);
      ChildForAttaches(path, e);
      assert d.entries[..n] == d.entries[..n - 1] + [e];
      AttachCollect(path, d.entries[..n - 1], e, Children(path, d, n, true), Children(path, d, n - 1, true),
        ChildFor(path, e, true));
    }
  }

  /** One collecting step keeps `AttachesExactly`, whatever the results are. */
  lemma AttachCollect(base: Path, es: seq<Entry>, e: Entry, all: Result<seq<GitDirectory>, Error>,
                      earlier: Result<seq<GitDirectory>, Error>, child: Result<Option<GitDirectory>, Error>)
    requires all.Success? <==> earlier.Success? && child.Success?
    requires all.Success? ==> all.value == earlier.value + Contributed(child.value)
    requires earlier.Success? ==> AttachesExactly(base, es, earlier.value)
    requires child.Success? ==>
      && (e.Dir? ==> Walk(base + [e.name], e, true).Success?)
      && forall c :: c in Contributed(child.value) <==> AttachedFrom(base, e, c)
    ensures all.Success? ==> AttachesExactly(base, es + [e], all.value)
  {
    if all.Success? {
      AttachStep(base, es, e, earlier.value, child.value);
    }
  }

  /** The node a recursive walk attaches for entry `e` of the directory at `base`: none, or one. */
  function AttachedNode(base: Path, e: Entry): seq<GitDirectory> {
    if e.Dir? && Walk(base + [e.name], e, true).Success? then
      var w := Walk(base + [e.name], e, true).value;
      if w.remotes != map[] || w.children != [] then [GitDirectory([e.name], w.remotes, w.children)] else []
    else []
  }

  /** The nodes a recursive walk attaches for `entries`, in listing order. */
  function Attached(base: Path, entries: seq<Entry>): seq<GitDirectory> {
    if entries == [] then []
    else Attached(base, entries[..|entries| - 1]) + AttachedNode(base, entries[|entries| - 1])
  }

  /**
   * In recursive mode the root's children are exactly the attached nodes of
   * its entries, one per non-empty subdirectory walk, in listing order.
   */
  lemma WalkChildrenAttached(path: Path, d: Entry)
    requires d.Dir?
    ensures Walk(path, d, true).Success? ==> Walk(path, d, true).value.children == Attached(path, d.entries)
  {
    ChildrenAttached(path, d, |d.entries|);
    assert d.entries[..|d.entries|] == d.entries;
  }

  lemma {:induction false} ChildrenAttached(path: Path, d: Entry, n: nat)
    requires d.Dir? && n <= |d.entries|
    ensures Children(path, d, n, true).Success? ==> Children(path, d, n, true).value == Attached(path, d.entries[..n])
  {
    if n > 0 {
      ChildrenAttached(path, d, n - 1);
      var e := d.entries[n - 1];
      ChildrenStep(path, d, n, true);
      ChildForAttachedNode(path, e);
      AttachedStep(path, d.entries, n);
      CollectStep(Children(path, d, n, true), Children(path, d, n - 1, true), ChildFor(path, e, true),
        Children(path, d, n - 1, true).Success?, ChildFor(path, e, true).Success?,
        Attached(path, d.entries[..n - 1]), AttachedNode(path, e));
    }
  }

  lemma AttachedStep(base: Path, entries: seq<Entry>, n: nat)
    requires 0 < n <= |entries|
    ensures Attached(base, entries[..n]) == Attached(base, entries[..n - 1]) + AttachedNode(base, entries[n - 1])
  {
    assert entries[..n][..n - 1] == entries[..n - 1];
  }

  /** In recursive mode one entry, when it reads, contributes exactly its attached node. */
  lemma ChildForAttachedNode(base: Path, e: Entry)
    ensures ChildFor(base, e, true).Success? ==> Contributed(ChildFor(base, e, true).value) == AttachedNode(base, e)
  {
    if e.Dir? {
      StripChild(base, e.name);
    }
  }

  /** In recursive mode one entry contributes exactly the node it attaches. */
  lemma ChildForAttaches(base: Path, e: Entry)
    ensures ChildFor(base, e, true).Success? ==>
      && (e.Dir? ==> Walk(base + [e.name], e, true).Success?)
      && forall c :: c in Contributed(ChildFor(base, e, true).value) <==> AttachedFrom(base, e, c)
  {
    if e.Dir? {
      StripChild(base, e.name);
    }
  }

  lemma AttachStep(base: Path, es: seq<Entry>, e: Entry, cs: seq<GitDirectory>, got: Option<GitDirectory>)
    requires AttachesExactly(base, es, cs)
    requires e.Dir? ==> Walk(base + [e.name], e, true).Success?
    requires forall c :: c in Contributed(got) <==> AttachedFrom(base, e, c)
    ensures AttachesExactly(base, es + [e], cs + Contributed(got))
  {
    forall c | c in cs + Contributed(got)
      ensures exists x :: x in es + [e] && AttachedFrom(base, x, c)
    {
      if c in cs {
        var x :| x in es && AttachedFrom(base, x, c);
        assert x in es + [e];
      } else {
        assert e in es + [e];
      }
    }
  }

  /** Following the chain of child names `names` from `t` leads to a node with exactly `remotes`. */
  ghost predicate Reaches(t: GitDirectory, names: seq<string>, remotes: map<string, string>)
    decreases |names|
  {
    if names == [] then t.remotes == remotes
    else exists c :: c in t.children && c.path == [names[0]] && Reaches(c, names[1..], remotes)
  }

  /** Following the chain of subdirectory names `names` from `d` leads to the directory `s`. */
  ghost predicate Located(d: Entry, names: seq<string>, s: Entry)
    decreases |names|
  {
    if names == [] then d == s
    else d.Dir? && exists x :: x in d.entries && x.Dir? && x.name == names[0] && Located(x, names[1..], s)
  }

  /**
   * A recursive walk of a readable tree reaches every repository that declares
   * remotes, at any depth, through the chain of directory names that leads to it.
   */
  lemma RepositoryReached(path: Path, d: Entry, names: seq<string>, s: Entry)
    requires d.Dir? && s.Dir? && Readable(d) && Located(d, names, s) && OwnRemotes(s.config) != map[]
    ensures Walk(path, d, true).Success? && Reaches(Walk(path, d, true).value, names, OwnRemotes(s.config))
  {
    WalkSucceedsIffReadable(path, d);
    WalkReaches(path, d, names, s);
  }

  lemma {:induction false} WalkReaches(path: Path, d: Entry, names: seq<string>, s: Entry)
    requires d.Dir? && s.Dir? && Located(d, names, s) && OwnRemotes(s.config) != map[]
    ensures Walk(path, d, true).Success? ==> Reaches(Walk(path, d, true).value, names, OwnRemotes(s.config))
    decreases |names|
  {
    var remotes := OwnRemotes(s.config);
    if names != [] && Walk(path, d, true).Success? {
      var x :| x in d.entries && x.Dir? && x.name == names[0] && Located(x, names[1..], s);
      var t := Walk(path, d, true).value;
      WalkAttachesExactly(path, d);
      var px := path + [x.name];
      WalkReaches(px, x, names[1..], s);
      var w := Walk(px, x, true).value;
      assert w.remotes != map[] || w.children != [] by {
        if names[1..] != [] {
          var c :| c in w.children && c.path == [names[1..][0]] && Reaches(c, names[1..][1..], remotes);
        }
      }
      var c := GitDirectory([x.name], w.remotes, w.children);
      assert AttachedFrom(path, x, c);
      assert c in t.children;
      assert Reaches(c, names[1..], remotes);
    }
  }

  /** The directory tree holds no `.git/config` file anywhere. */
  ghost predicate NoConfigs(e: Entry) {
    e.Dir? ==> e.config.Absent? && forall x :: x in e.entries ==> NoConfigs(x)
  }

  /** Nothing in the tree fails to read: no bad entry, no unlistable directory, no unreadable config. */
  ghost predicate Readable(e: Entry) {
    match e
    case File(_) => true
    case BadEntry => false
    case Dir(_, config, listable, entries) =>
      !config.Unreadable? && listable && forall x :: x in entries ==> Readable(x)
  }

  /** A recursive walk with no config anywhere yields the root alone, with no remotes. */
  lemma {:induction false} WalkNoConfigs(path: Path, d: Entry)
    requires d.Dir? && NoConfigs(d)
    ensures Walk(path, d, true).Success? ==> Walk(path, d, true).value == GitDirectory(path, map[], [])
    decreases d, 1
  {
    ChildrenNoConfigs(path, d, |d.entries|);
  }

  lemma {:induction false} ChildrenNoConfigs(path: Path, d: Entry, n: nat)
    requires d.Dir? && n <= |d.entries| && NoConfigs(d)
    ensures Children(path, d, n, true).Success? ==> Children(path, d, n, true).value == []
    decreases d, 0, n
  {
    if n > 0 {
      ChildrenNoConfigs(path, d, n - 1);
      var e := d.entries[n - 1];
      assert e in d.entries;
      if e.Dir? {
        WalkNoConfigs(path + [e.name], e);
      }
    }
  }

  /** A recursive walk succeeds exactly when nothing anywhere in the tree fails to read. */
  lemma {:induction false} WalkSucceedsIffReadable(path: Path, d: Entry)
    requires d.Dir?
    ensures Walk(path, d, true).Success? <==> Readable(d)
    decreases d, 1
  {
    ChildrenSucceedIffReadable(path, d, |d.entries|);
    assert (forall k :: 0 <= k < |d.entries| ==> Readable(d.entries[k]))
       <==> (forall x :: x in d.entries ==> Readable(x));
  }

  lemma {:induction false} ChildrenSucceedIffReadable(path: Path, d: Entry, n: nat)
    requires d.Dir? && n <= |d.entries|
    ensures Children(path, d, n, true).Success? <==> forall k :: 0 <= k < n ==> Readable(d.entries[k])
    decreases d, 0, n
  {
    if n > 0 {
      ChildrenSucceedIffReadable(path, d, n - 1);
      var e := d.entries[n - 1];
      if e.Dir? {
        WalkSucceedsIffReadable(path + [e.name], e);
        StripChild(path, e.name);
      }
    }
  }

  /** A readable tree with no repository in it yields exactly the root, empty. */
  lemma NoRepositoriesYieldRoot(path: Path, d: Entry)
    requires d.Dir? && NoConfigs(d) && Readable(d)
    ensures Walk(path, d, true) == Success(GitDirectory(path, map[], []))
  {
    WalkSucceedsIffReadable(path, d);
    WalkNoConfigs(path, d);
  }

  /*
   * Non-recursive mode.
   */

  /** The leaves the direct subdirectories with a config file give, in listing order. */
  function Leaves(entries: seq<Entry>): seq<GitDirectory> {
    if entries == [] then []
    else
      Leaves(entries[..|entries| - 1]) +
        match entries[|entries| - 1]
        case Dir(name, Lines(lines), _, _) => [GitDirectory([name], ParseConfig(lines), [])]
        case _ => []
  }

  /** What a non-recursive walk needs of one entry: it lists, and its config, if a file, reads. */
  ghost predicate ShallowReadable(e: Entry) {
    e != BadEntry && (e.Dir? ==> !e.config.Unreadable?)
  }

  /**
   * Without recursion the root gets one leaf per direct subdirectory whose
   * config exists, in listing order and with no children; the walk fails
   * exactly when the root, its listing, or one of those configs fails to read.
   */
  lemma NonRecursiveWalk(path: Path, d: Entry)
    requires d.Dir?
    ensures Walk(path, d, false).Success? <==>
      !d.config.Unreadable? && d.listable && forall x :: x in d.entries ==> ShallowReadable(x)
    ensures Walk(path, d, false).Success? ==> Walk(path, d, false).value.children == Leaves(d.entries)
  {
    ChildrenNonRecursive(path, d, |d.entries|);
    assert d.entries[..|d.entries|] == d.entries;
    assert (forall k :: 0 <= k < |d.entries| ==> ShallowReadable(d.entries[k]))
       <==> (forall x :: x in d.entries ==> ShallowReadable(x));
  }

  lemma {:induction false} ChildrenNonRecursive(path: Path, d: Entry, n: nat)
    requires d.Dir? && n <= |d.entries|
    ensures Children(path, d, n, false).Success? <==> forall k :: 0 <= k < n ==> ShallowReadable(d.entries[k])
    ensures Children(path, d, n, false).Success? ==> Children(path, d, n, false).value == Leaves(d.entries[..n])
  {
    if n > 0 {
      ChildrenNonRecursive(path, d, n - 1);
      var e := d.entries[n - 1];
      ChildrenStep(path, d, n, false);
      ChildForNonRecursive(path, e);
      CollectStep(Children(path, d, n, false), Children(path, d, n - 1, false), ChildFor(path, e, false),
        forall k :: 0 <= k < n - 1 ==> ShallowReadable(d.entries[k]), ShallowReadable(e),
        Leaves(d.entries[..n - 1]), Leaves([e]));
      ReadableStep(d.entries, n);
      LeavesStep(d.entries, n);
    }
  }

  /** The children of the first `n` entries are those of the first `n - 1` plus what entry `n - 1` gives. */
  lemma ChildrenStep(path: Path, d: Entry, n: nat, recurse: bool)
    requires d.Dir? && 0 < n <= |d.entries|
    ensures Children(path, d, n, recurse).Success? <==>
      Children(path, d, n - 1, recurse).Success? && ChildFor(path, d.entries[n - 1], recurse).Success?
    ensures Children(path, d, n, recurse).Success? ==>
      Children(path, d, n, recurse).value ==
        Children(path, d, n - 1, recurse).value + Contributed(ChildFor(path, d.entries[n - 1], recurse).value)
  {
  }

  /**
   * One collecting step: when the earlier entries succeed exactly when `ok`
   * and give `nodes`, and the next entry succeeds exactly when `okNext` and
   * gives `next`, the whole succeeds exactly when both do and gives both.
   */
  lemma CollectStep(all: Result<seq<GitDirectory>, Error>, earlier: Result<seq<GitDirectory>, Error>,
                    child: Result<Option<GitDirectory>, Error>, ok: bool, okNext: bool,
                    nodes: seq<GitDirectory>, next: seq<GitDirectory>)
    requires all.Success? <==> earlier.Success? && child.Success?
    requires all.Success? ==> all.value == earlier.value + Contributed(child.value)
    requires (earlier.Success? <==> ok) && (earlier.Success? ==> earlier.value == nodes)
    requires (child.Success? <==> okNext) && (child.Success? ==> Contributed(child.value) == next)
    ensures all.Success? <==> ok && okNext
    ensures all.Success? ==> all.value == nodes + next
  {
  }

  /** The nodes an entry contributes: none, or one. */
  function Contributed(child: Option<GitDirectory>): (r: seq<GitDirectory>)
    ensures |r| <= 1 && (r == [] <==> child.None?)
  {
    if child.Some? then [child.value] else []
  }

  lemma ReadableStep(entries: seq<Entry>, n: nat)
    requires 0 < n <= |entries|
    ensures (forall k :: 0 <= k < n ==> ShallowReadable(entries[k])) <==>
      (forall k :: 0 <= k < n - 1 ==> ShallowReadable(entries[k])) && ShallowReadable(entries[n - 1])
  {
  }

  lemma LeavesStep(entries: seq<Entry>, n: nat)
    requires 0 < n <= |entries|
    ensures Leaves(entries[..n]) == Leaves(entries[..n - 1]) + Leaves([entries[n - 1]])
  {
    assert entries[..n][..n - 1] == entries[..n - 1];
    assert [entries[n - 1]][..0] == [];
  }

  /** Without recursion one entry reads exactly when it is shallow-readable, and yields its leaf. */
  lemma ChildForNonRecursive(base: Path, e: Entry)
    ensures ChildFor(base, e, false).Success? <==> ShallowReadable(e)
    ensures ChildFor(base, e, false).Success? ==> Leaves([e]) == Contributed(ChildFor(base, e, false).value)
  {
    assert [e][..0] == [];
    if e.Dir? {
      StripChild(base, e.name);
    }
  }

  /** An entry as a non-recursive walk sees it: a subdirectory's own contents are not looked at. */
  function Shallow(e: Entry): Entry {
    match e
    case Dir(name, config, _, _) => Dir(name, config, true, [])
    case _ => e
  }

  /**
   * A non-recursive walk never inspects grandchildren: two trees that agree
   * on the root and on what each direct entry is give the same result.
   */
  lemma NonRecursiveIgnoresDepth(path: Path, d: Entry, d': Entry)
    requires d.Dir? && d'.Dir?
    requires d.config == d'.config && d.listable == d'.listable && |d.entries| == |d'.entries|
    requires forall k :: 0 <= k < |d.entries| ==> Shallow(d.entries[k]) == Shallow(d'.entries[k])
    ensures Walk(path, d, false) == Walk(path, d', false)
  {
    ChildrenIgnoreDepth(path, d, d', |d.entries|);
  }

  lemma {:induction false} ChildrenIgnoreDepth(path: Path, d: Entry, d': Entry, n: nat)
    requires d.Dir? && d'.Dir? && n <= |d.entries| == |d'.entries|
    requires forall k :: 0 <= k < |d.entries| ==> Shallow(d.entries[k]) == Shallow(d'.entries[k])
    ensures Children(path, d, n, false) == Children(path, d', n, false)
  {
    if n > 0 {
      ChildrenIgnoreDepth(path, d, d', n - 1);
      ChildForIgnoresDepth(path, d.entries[n - 1], d'.entries[n - 1]);
    }
  }

  /** Without recursion an entry's result depends only on what the entry is, not on its contents. */
  lemma ChildForIgnoresDepth(base: Path, e: Entry, e': Entry)
    requires Shallow(e) == Shallow(e')
    ensures ChildFor(base, e, false) == ChildFor(base, e', false)
  {
  }

  /*
   * Child order and paths, in either mode.
   */

  /** `idx` picks out `xs` from `ys` at strictly increasing positions. */
  ghost predicate Embeds(xs: seq<Path>, ys: seq<Path>, idx: seq<int>) {
    && |idx| == |xs|
    && (forall k :: 0 <= k < |idx| ==> 0 <= idx[k] < |ys| && xs[k] == ys[idx[k]])
    && (forall j, k :: 0 <= j < k < |idx| ==> idx[j] < idx[k])
  }

  ghost predicate IsSubsequence(xs: seq<Path>, ys: seq<Path>) {
    exists idx :: Embeds(xs, ys, idx)
  }

  /** The children's paths, in order. */
  function ChildPaths(children: seq<GitDirectory>): seq<Path> {
    seq(|children|, k requires 0 <= k < |children| => children[k].path)
  }

  /** Taking the paths commutes with appending children. */
  lemma ChildPathsAppend(a: seq<GitDirectory>, b: seq<GitDirectory>)
    ensures ChildPaths(a + b) == ChildPaths(a) + ChildPaths(b)
  {
  }

  /** The names of the subdirectories among `entries`, in listing order, each as a one-component path. */
  function DirNames(entries: seq<Entry>): seq<Path> {
    if entries == [] then []
    else
      var e := entries[|entries| - 1];
      DirNames(entries[..|entries| - 1]) + if e.Dir? then [[e.name]] else []
  }

  /**
   * Children appear in directory-enumeration order, each under its own
   * entry name relative to its parent.
   */
  lemma WalkChildrenInListingOrder(path: Path, d: Entry, recurse: bool)
    requires d.Dir?
    ensures Walk(path, d, recurse).Success? ==>
      IsSubsequence(ChildPaths(Walk(path, d, recurse).value.children), DirNames(d.entries))
  {
    ChildrenInListingOrder(path, d, |d.entries|, recurse);
    assert d.entries[..|d.entries|] == d.entries;
  }

  lemma {:induction false} ChildrenInListingOrder(path: Path, d: Entry, n: nat, recurse: bool)
    requires d.Dir? && n <= |d.entries|
    ensures Children(path, d, n, recurse).Success? ==>
      IsSubsequence(ChildPaths(Children(path, d, n, recurse).value), DirNames(d.entries[..n]))
  {
    if n == 0 {
      assert ChildPaths(Children(path, d, 0, recurse).value) == [];
      assert Embeds([], DirNames(d.entries[..0]), []);
    } else {
      ChildrenInListingOrder(path, d, n - 1, recurse);
      var e := d.entries[n - 1];
      ChildrenStep(path, d, n, recurse);
      ChildForShape(path, e, recurse);
      DirNamesStep(d.entries, n);
      OrderCollect(Children(path, d, n, recurse), Children(path, d, n - 1, recurse), ChildFor(path, e, recurse),
                   DirNames(d.entries[..n - 1]), e);
    }
  }

  /** One collecting step keeps the order, whatever the results are. */
  lemma OrderCollect(all: Result<seq<GitDirectory>, Error>, earlier: Result<seq<GitDirectory>, Error>,
                     child: Result<Option<GitDirectory>, Error>, ys: seq<Path>, e: Entry)
    requires all.Success? <==> earlier.Success? && child.Success?
    requires all.Success? ==> all.value == earlier.value + Contributed(child.value)
    requires earlier.Success? ==> IsSubsequence(ChildPaths(earlier.value), ys)
    requires child.Success? && child.value.Some? ==> e.Dir? && child.value.value.path == [e.name]
    ensures all.Success? ==> IsSubsequence(ChildPaths(all.value), ys + if e.Dir? then [[e.name]] else [])
  {
    if all.Success? {
      OrderStep(earlier.value, child.value, ys, e);
    }
  }

  lemma DirNamesStep(entries: seq<Entry>, n: nat)
    requires 0 < n <= |entries|
    ensures DirNames(entries[..n]) ==
      DirNames(entries[..n - 1]) + if entries[n - 1].Dir? then [[entries[n - 1].name]] else []
  {
    assert entries[..n][..n - 1] == entries[..n - 1];
  }

  /** One more entry keeps the children's paths a subsequence of the subdirectory names. */
  lemma OrderStep(cs: seq<GitDirectory>, got: Option<GitDirectory>, ys: seq<Path>, e: Entry)
    requires IsSubsequence(ChildPaths(cs), ys)
    requires got.Some? ==> e.Dir? && got.value.path == [e.name]
    ensures IsSubsequence(ChildPaths(cs + Contributed(got)), ys + if e.Dir? then [[e.name]] else [])
  {
    var idx :| Embeds(ChildPaths(cs), ys, idx);
    if got.Some? {
      EmbedsExtend(ChildPaths(cs), ys, idx, [e.name]);
      ChildPathsAppend(cs, [got.value]);
      assert ChildPaths([got.value]) == [[e.name]];
      assert Embeds(ChildPaths(cs + Contributed(got)), ys + [[e.name]], idx + [|ys|]);
    } else if e.Dir? {
      EmbedsExtend(ChildPaths(cs), ys, idx, [e.name]);
      assert cs + [] == cs;
      assert Embeds(ChildPaths(cs + Contributed(got)), ys + [[e.name]], idx);
    } else {
      assert cs + [] == cs && ys + [] == ys;
      assert Embeds(ChildPaths(cs + Contributed(got)), ys + [], idx);
    }
  }

  /** A contributed child comes from a subdirectory and carries that subdirectory's name as its path. */
  lemma ChildForShape(base: Path, e: Entry, recurse: bool)
    ensures ChildFor(base, e, recurse).Success? && ChildFor(base, e, recurse).value.Some? ==>
      e.Dir? && ChildFor(base, e, recurse).value.value.path == [e.name]
  {
    if e.Dir? {
      StripChild(base, e.name);
    }
  }

  /** Appending to both sequences, or to the longer one only, keeps an embedding. */
  lemma EmbedsExtend(xs: seq<Path>, ys: seq<Path>, idx: seq<int>, y: Path)
    requires Embeds(xs, ys, idx)
    ensures Embeds(xs + [y], ys + [y], idx + [|ys|])
    ensures Embeds(xs, ys + [y], idx)
  {
  }

  /*
   * The scenarios of the source's tests, for any root path and entry names.
   */

  const SubRepoUrl := "https://github.com/user/subrepo.git"

  /** A config file declaring the single remote `origin` with the given URL. */
  function OriginConfig(url: string): Config {
    Lines([HeaderLine(Origin), UrlLine(Indent, url)])
  }

  lemma ParseOriginConfig(url: string)
    requires url != [] && !IsWhitespace(url[|url| - 1])
    ensures ParseConfig(OriginConfig(url).lines) == map[Origin := url]
  {
    var sections := [(Origin, url)];
    assert SectionLines(sections, Indent) == OriginConfig(url).lines;
    IndentIsWhitespace();
    SectionsParse(sections, Indent);
  }

  const GitDirName := ".git"
  const ConfigFileName := "config"

  /**
   * A repository's `.git` directory as the walk sees it: an ordinary
   * subdirectory holding the `config` file, with no `.git/config` of its own.
   */
  const GitMetadata: Entry := Dir(GitDirName, Absent, true, [File(ConfigFileName)])

  /** The `.git` directory is walked, or checked for a config, and contributes nothing, in either mode. */
  lemma GitMetadataContributesNothing(base: Path, recurse: bool)
    ensures ChildFor(base, GitMetadata, recurse) == Success(None)
  {
    var p := base + [GitDirName];
    assert Children(p, GitMetadata, 0, true) == Success([]);
    assert Children(p, GitMetadata, 1, true) == Success([]);
    assert Walk(p, GitMetadata, true) == Success(GitDirectory(p, map[], []));
  }

  /** A repository with a repository in a subdirectory: the child holds its own remotes under its name. */
  lemma SubdirectoryExample(path: Path, rootName: string, subName: string)
    ensures Walk(path, Dir(rootName, OriginConfig(RepoUrl), true,
                           [GitMetadata, Dir(subName, OriginConfig(SubRepoUrl), true, [GitMetadata])]), true)
         == Success(GitDirectory(path, map[Origin := RepoUrl], [GitDirectory([subName], map[Origin := SubRepoUrl], [])]))
  {
    ParseOriginConfig(RepoUrl);
    var sub := Dir(subName, OriginConfig(SubRepoUrl), true, [GitMetadata]);
    var subRemotes := map[Origin := SubRepoUrl];
    var child := GitDirectory([subName], subRemotes, []);
    SubrepositoryAttached(path, subName);
    GitMetadataContributesNothing(path, true);
    var root := Dir(rootName, OriginConfig(RepoUrl), true, [GitMetadata, sub]);
    assert Children(path, root, 0, true) == Success([]);
    assert Children(path, root, 1, true) == Success([]);
    assert [] + [child] == [child];
    assert Children(path, root, 2, true) == Success([child]);
  }

  /** The subdirectory of the scenario above is attached under its name with its own `origin`. */
  lemma SubrepositoryAttached(path: Path, subName: string)
    ensures ChildFor(path, Dir(subName, OriginConfig(SubRepoUrl), true, [GitMetadata]), true)
         == Success(Some(GitDirectory([subName], map[Origin := SubRepoUrl], [])))
  {
    var sub := Dir(subName, OriginConfig(SubRepoUrl), true, [GitMetadata]);
    var remotes := map[Origin := SubRepoUrl];
    SubrepositoryWalk(path + [subName], subName);
    assert remotes != map[] by { assert Origin in remotes; }
    ChildForNonEmptyWalk(path, sub, GitDirectory(path + [subName], remotes, []));
  }

  /** A subdirectory whose walk found something is attached under its name with what it found. */
  lemma ChildForNonEmptyWalk(base: Path, e: Entry, w: GitDirectory)
    requires e.Dir? && Walk(base + [e.name], e, true) == Success(w)
    requires w.remotes != map[] || w.children != []
    ensures ChildFor(base, e, true) == Success(Some(GitDirectory([e.name], w.remotes, w.children)))
  {
    StripChild(base, e.name);
  }

  /** Walked on its own, that subdirectory gives its `origin` and no children. */
  lemma SubrepositoryWalk(p: Path, subName: string)
    ensures Walk(p, Dir(subName, OriginConfig(SubRepoUrl), true, [GitMetadata]), true)
         == Success(GitDirectory(p, map[Origin := SubRepoUrl], []))
  {
    ParseOriginConfig(SubRepoUrl);
    var sub := Dir(subName, OriginConfig(SubRepoUrl), true, [GitMetadata]);
    GitMetadataContributesNothing(p, true);
    assert Children(p, sub, 0, true) == Success([]);
    assert Children(p, sub, 1, true) == Success([]);
  }

  /** A directory holding only an empty subdirectory, walked recursively, yields the root alone. */
  lemma EmptySubdirectoryExample(path: Path, rootName: string, subName: string)
    ensures Walk(path, Dir(rootName, Absent, true, [Dir(subName, Absent, true, [])]), true)
         == Success(GitDirectory(path, map[], []))
  {
    NoRepositoriesYieldRoot(path, Dir(rootName, Absent, true, [Dir(subName, Absent, true, [])]));
  }

  /** A repository whose config is empty is found, with no remotes. */
  lemma EmptyConfigExample(path: Path, rootName: string)
    ensures Walk(path, Dir(rootName, Lines([]), true, [GitMetadata]), false) == Success(GitDirectory(path, map[], []))
  {
    GitMetadataContributesNothing(path, false);
    assert Children(path, Dir(rootName, Lines([]), true, [GitMetadata]), 0, false) == Success([]);
  }

  /** A single repository with one remote and no subdirectories, walked without recursion. */
  lemma SingleRepositoryExample(path: Path, rootName: string)
    ensures Walk(path, Dir(rootName, OriginConfig(RepoUrl), true, [GitMetadata]), false)
         == Success(GitDirectory(path, map[Origin := RepoUrl], []))
  {
    ParseOriginConfig(RepoUrl);
    GitMetadataContributesNothing(path, false);
    assert Children(path, Dir(rootName, OriginConfig(RepoUrl), true, [GitMetadata]), 0, false) == Success([]);
  }

  /**
   * Without recursion a subdirectory whose config declares no remotes still
   * becomes a child, with neither remotes nor children: pruning applies to
   * recursive mode only.
   */
  lemma NonRecursiveKeepsEmptyRepository(path: Path, rootName: string, subName: string)
    ensures Walk(path, Dir(rootName, Absent, true, [Dir(subName, Lines([]), true, [GitMetadata])]), false)
         == Success(GitDirectory(path, map[], [GitDirectory([subName], map[], [])]))
  {
    var root := Dir(rootName, Absent, true, [Dir(subName, Lines([]), true, [GitMetadata])]);
    assert ParseConfig([]) == map[];
    assert root.entries[..0] == [];
    assert Leaves(root.entries) == [GitDirectory([subName], map[], [])];
    NonRecursiveWalk(path, root);
    assert forall x :: x in root.entries ==> ShallowReadable(x);
  }
}
