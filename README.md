# lg: finding Git repositories and their remotes, modelled in Dafny

`lg` is a command-line tool. Given a directory, it looks for Git
repositories in it and reports the remotes each one declares, as a tree of
`GitDirectory` nodes. By default it looks at the directory itself and its
direct subdirectories; with `--tree` it walks the whole tree, and there it
keeps a repository below the root only if it declares remotes or has a
reported repository beneath it. This project models the tool's core, taken from
`src/main.rs`:

- **The remote extractor.** `parse_git_config` reads `.git/config` line by
  line. It keeps one piece of state: the name from the last
  `[remote "..."]` header it has read. Headers of other sections, such as
  `[submodule "..."]` or `[branch "..."]`, do not change it. It maps that
  name to the value of each `url = ...` line that follows, so a `url = `
  line in a later section of another kind is recorded under that remote
  too. `try_get_git_config_remotes` tells "no
  config file" apart from "a config file, perhaps with no remotes".
- **The tree builder.** `find_git_configs` walks a directory tree. The root
  node always appears, under the path it was given. In recursive mode, a
  subdirectory's subtree is attached only if it has remotes or children. In
  non-recursive mode, each direct subdirectory that has a config becomes a
  leaf. A child's path is stored relative to its parent.

Modules:

- `Wrappers.dfy`: `Option` and `Result`.
- `Text.dfy`: the parts of Rust's string library the parser uses.
  - `char::is_whitespace` is modelled as the full Unicode White_Space set.
  - `trim` is modelled with its characterisation. `Trim` undoes any
    whitespace padding.
  - `starts_with`, `ends_with`, and `replace("\"", "")` (`RemoveQuotes`).
- `GitConfig.dfy`: the parser.
  - `ClassifyTrimmed` and `Classify` apply the two line rules in the
    source's order.
  - `Step` and `Run` give the parser's state after each line, and
    `ParseConfig` gives the resulting map.
  - `ParseGitConfig` is the imperative loop. It is proved equal to
    `ParseConfig`.
  - `LastUrlOf` is an independent reference reading: it scans backwards
    from the last line, per remote name.
  - The section lemmas cover well-formed files, including the files used
    by the source's parser tests.
- `GitTree.dfy`: the tree builder over an abstract filesystem.
  - A directory (`Entry.Dir`) holds the state of its `.git/config`
    (`Absent`, `Lines`, `Unreadable`), whether it can be listed, and its
    entries in enumeration order.
  - `Walk`, `Children` and `ChildFor` specify `find_git_configs`.
  - `FindGitConfigs` is the recursive method with the loop over entries.
    It is proved equal to `Walk`.
  - The lemmas state the pruning rule, the error behaviour, the
    non-recursive mode, child order and paths, and the source's test
    scenarios.

Paths are sequences of components. The path of a directory entry is its
parent's path plus the entry's name.

Pruning applies only in recursive mode (src/main.rs:98). In non-recursive
mode a subdirectory whose config declares no remotes still becomes a child
with no remotes and no children (src/main.rs:105-111);
`GitTree.NonRecursiveKeepsEmptyRepository` states this.

## Model

| member | source | states |
|---|---|---|
| `Text.AsciiWhitespace` | src/main.rs:53 | `IsWhitespace`, the model of Rust's `char::is_whitespace` that `trim` strips, holds for the 25 code points of Unicode White_Space; among ASCII characters that is exactly tab, line feed, vertical tab, form feed, carriage return and space |
| `Text.StartsWith` | src/main.rs:55-58 | `starts_with` (and the test inside `strip_prefix`) holds exactly when the prefix fits and agrees character by character, and then the string is the prefix followed by the rest |
| `Text.EndsWith` | src/main.rs:55 | `ends_with` holds exactly when the suffix fits and agrees character by character with the end, and then the string is the rest followed by the suffix |
| `Text.Trim` | src/main.rs:53 | the trimmed line is a slice of the line with only whitespace around it, and it neither starts nor ends with whitespace |
| `Text.TrimPadded` | src/main.rs:53 | trimming removes exactly the surrounding whitespace: trimming `front + t + back` gives back `t` |
| `Text.TrimStart` | src/main.rs:53 | the longest suffix of the line that does not start with whitespace; only whitespace is dropped |
| `Text.TrimEnd` | src/main.rs:53 | the longest prefix of the line that does not end with whitespace; only whitespace is dropped |
| `Text.RemoveQuotes` | src/main.rs:57 | `replace("\"", "")` leaves no double quote in the name and never lengthens it |
| `Text.RemoveQuotesUnquoted` | src/main.rs:57 | a name without quotes is left unchanged |
| `Text.RemoveQuotesConcat` | src/main.rs:57 | quote removal distributes over concatenation |
| `GitConfig.HeaderLineLength` | src/main.rs:55-57 | a trimmed line that starts with `[remote ` and ends with `]` has at least 9 characters, so the slice `[8..len-1]` is in bounds |
| `GitConfig.Classify` | src/main.rs:53-58 | a line is trimmed and then tested: it is a header exactly when the trimmed line starts with `[remote ` and ends with `]`, and a url line exactly when the trimmed line is `url = ` followed by the value |
| `GitConfig.ClassifyTrimmed` | src/main.rs:55-62 | a header is exactly a `[remote `…`]` line and its name is the text between, quotes removed; a url line is exactly a `url = ` line and its value is the rest; no line is both, so each line triggers at most one rule |
| `GitConfig.Step` | src/main.rs:55-62 | one pass of the loop body: the active remote becomes the header's name on a header line and is kept otherwise; the map gains or replaces the active remote's entry on a `url = ` line under an active remote and is kept otherwise |
| `GitConfig.StepEffect` | src/main.rs:55-62 | a `url = ` line under an active remote gives that remote the line's value, keeps every other entry, and adds no other key; a line matching neither rule, or a `url = ` line with no active remote, leaves the whole state unchanged |
| `GitConfig.ParseGitConfig` | src/main.rs:43-65 | the loop with its mutable `current_remote` and map builds `ParseConfig(lines)`, which agrees, name by name, with the reference reading `LastUrlOf` |
| `GitConfig.ActiveIsLastHeader` | src/main.rs:49-57 | after any prefix of the file, the active remote is the name from the last header read, or none |
| `GitConfig.ParseMatchesLastUrl` | src/main.rs:58-61 | a name is a key exactly when some `url = ` line has, as its nearest preceding `[remote ` header, a header of that name, whatever sections of other kinds come between; its value is the last such line's (last write wins) |
| `GitConfig.KeysComeFromHeaders` | src/main.rs:55-61 | every key of the result was named by some header that a later `url = ` line follows |
| `GitConfig.NoHeaderNoRemotes` | src/main.rs:58-61 | `url = ` lines with no active remote are ignored: a file with no header gives an empty map |
| `GitConfig.LeadingOtherIgnored` | src/main.rs:55-62 | a first line that matches neither rule changes nothing |
| `GitConfig.RunAppend` | src/main.rs:51-63 | reading a file in two pieces, carrying the state across, is reading it whole |
| `GitConfig.ClassifyHeaderLine` | src/main.rs:55-57 | a `[remote "<name>"]` line activates `<name>` with its quotes removed |
| `GitConfig.ClassifyUrlLine` | src/main.rs:58-60 | an indented `url = <url>` line yields `<url>` when the URL does not end in whitespace |
| `GitConfig.RunHeaderThenUrl` | src/main.rs:55-61 | a header line followed by a `url = ` line sets exactly that header's entry to that URL |
| `GitConfig.OtherSectionUrlGoesToRemote` | src/main.rs:55-61 | a header of another kind does not change the active remote, so a `url = ` line after it still sets the active remote's entry |
| `GitConfig.SubmoduleLineIsOther` | src/main.rs:55-58 | a `[submodule "<name>"]` line matches neither rule |
| `GitConfig.LaterUrlOverwrites` | src/main.rs:55-61 | a remote's section followed by a section of another kind with its own `url = ` line gives that remote the later URL |
| `GitConfig.SubmoduleUrlOverwritesRemote` | src/main.rs:55-61 | in a file with an `origin` section followed by a `[submodule ...]` section, the submodule's URL is recorded as `origin`'s |
| `GitConfig.RunSection` | src/main.rs:55-61 | a header followed by its url line sets that name's entry, whatever came before |
| `GitConfig.SectionsParse` | src/main.rs:214-243 | a file of well-formed sections parses to the map the sections declare, later sections overriding earlier ones |
| `GitConfig.MapOfDistinct` | src/main.rs:232-240 | N sections with distinct names give a map of size N holding each name's URL |
| `GitConfig.OneRemoteExample` | src/main.rs:195-211 | the single-`origin` test file gives one remote with the expected URL |
| `GitConfig.BlankIsOther` | src/main.rs:53-62 | a blank line matches neither the header rule nor the url rule |
| `GitConfig.TwoRemotesExample` | src/main.rs:214-243 | the test file with a leading blank line and `origin` and `upstream` sections gives exactly those two remotes with their URLs |
| `GitTree.StripPrefix` | src/main.rs:100 | `strip_prefix` succeeds exactly when the base is a prefix of the path, and gives the rest |
| `GitTree.StripChild` | src/main.rs:100-107 | an entry's path stripped of its parent's path is its own name, so the `?` after `strip_prefix` never fails |
| `GitTree.TryGetGitConfigRemotes` | src/main.rs:67-77 | no config file gives `None`; a config file gives `Some` of its remotes, an empty file `Some` of an empty map; a file that cannot be read gives an error naming `.git/config` |
| `GitTree.Walk` | src/main.rs:82-117 | a successful walk returns a root with the given path and the root's own remotes (none without a config), whatever lies beneath |
| `GitTree.ChildrenFailurePersists` | src/main.rs:91-113 | the first error while walking the entries aborts the whole walk with that error |
| `GitTree.FindGitConfigs` | src/main.rs:82-117 | the recursive method with its loop that pushes onto `children` computes `Walk` |
| `GitTree.VisitEntry` | src/main.rs:92-112 | one pass of the loop body computes `ChildFor`: a file adds nothing, a failing entry aborts, a subdirectory is walked (recursively) or has its config read (otherwise), and the node it yields, if any, has a path relative to its parent |
| `GitTree.WalkPruned` | src/main.rs:96-104 | in recursive mode every node below the root has remotes or children, and its path is a single relative name (the converse, that every such subtree is attached, is `WalkAttachesExactly`) |
| `GitTree.WalkAttachesExactly` | src/main.rs:95-104 | in recursive mode the children are exactly the nodes the subdirectories attach: a subdirectory whose own walk found remotes or children is attached under its name with those remotes and children, and nothing else is attached; every subdirectory is walked |
| `GitTree.WalkChildrenAttached` | src/main.rs:91-104 | in recursive mode the children are exactly `Attached(path, entries)`: one node per subdirectory whose walk found remotes or children, under its name, in listing order, so the sequence is fixed even where entry names repeat |
| `GitTree.ChildForNonEmptyWalk` | src/main.rs:96-103 | a subdirectory whose walk found remotes or children is pushed under its own name with that walk's remotes and children |
| `GitTree.ChildForAttaches` | src/main.rs:95-104 | in recursive mode one entry contributes a node if and only if it is a subdirectory whose walk found remotes or children, and then exactly that walk's remotes and children under the entry's name |
| `GitTree.RepositoryReached` | src/main.rs:82-117 | a recursive walk of a readable tree reaches every repository that declares remotes, at any depth, by following the chain of directory names that leads to it, and that node holds the repository's remotes |
| `GitTree.WalkNoConfigs` | src/main.rs:83-104 | in recursive mode, a tree with no config anywhere yields only the empty root |
| `GitTree.WalkSucceedsIffReadable` | src/main.rs:88-113 | a recursive walk succeeds exactly when no config, listing or entry anywhere in the tree fails to read |
| `GitTree.NoRepositoriesYieldRoot` | src/main.rs:401-417 | a readable tree with no repository yields exactly the root, with no remotes and no children |
| `GitTree.NonRecursiveWalk` | src/main.rs:105-112 | without recursion the children are exactly one leaf per direct subdirectory whose config exists, in listing order, each with that config's remotes and no children; the walk fails exactly when the root's config, its listing, a direct entry or a direct subdirectory's config fails to read |
| `GitTree.ChildForNonRecursive` | src/main.rs:95-112 | without recursion one entry reads exactly when it lists and any config file it has reads, and it contributes a leaf exactly when its config exists |
| `GitTree.NonRecursiveIgnoresDepth` | src/main.rs:105-112 | without recursion nothing below the direct subdirectories is inspected: trees that differ only there give the same result |
| `GitTree.NonRecursiveKeepsEmptyRepository` | src/main.rs:105-111 | without recursion a subdirectory whose config declares no remotes still becomes a child with no remotes and no children |
| `GitTree.WalkChildrenInListingOrder` | src/main.rs:91-112 | in both modes, the children's paths are the names of subdirectory entries, picked out in directory-enumeration order |
| `GitTree.GitMetadataContributesNothing` | src/main.rs:95-112 | the `.git` directory, an ordinary entry holding `config` and no `.git/config` of its own, is walked (recursively) or checked for a config (otherwise) and contributes no child in either mode |
| `GitTree.SubrepositoryAttached` | src/main.rs:97-103 | a subdirectory holding a repository with one `origin` remote is attached under its name with that remote |
| `GitTree.SubdirectoryExample` | src/main.rs:246-275 | a repository with a repository in `subdir`, walked recursively, gives the root's `origin` and one child `subdir` with its own `origin` |
| `GitTree.EmptySubdirectoryExample` | src/main.rs:401-417 | a directory holding only an empty subdirectory, walked recursively, yields the root alone |
| `GitTree.EmptyConfigExample` | src/main.rs:420-432 | a repository with an empty config is found, with no remotes |
| `GitTree.SingleRepositoryExample` | src/main.rs:278-294 | a repository with one remote and no subdirectories gives the root with that remote and no children |

## Left out

- `main`, `Cli` and `OutputFormat` (src/main.rs:119-171) are left out. They are command-line glue: argument parsing, the current-directory default and the is-a-directory check.
- `print_plain` (src/main.rs:25-39) and the YAML/JSON serialisation (src/main.rs:160-167) are left out. They are console output and foreign serialisers, and the order of the printed remotes depends on `HashMap` iteration order.
- The real filesystem calls are not modelled: `File::open`, `BufReader::lines`, `fs::read_dir`, `is_file` and `is_dir`. The abstract `Entry` datatype replaces them.
  - `Config.Absent` covers a `.git/config` that is missing or is not a file, and also one whose metadata cannot be read (for example when `.git` cannot be searched): `is_file` (src/main.rs:69) answers false there, so that I/O failure reads as "not a repository", not as an error.
  - `Config.Unreadable` covers any failure to open the file or decode one of its lines. The model does not record which line failed.
  - `listable = false` covers a failing `read_dir`.
  - An entry whose metadata cannot be read (a dangling symbolic link, or one in a directory that cannot be searched) is a `File`: `is_dir` (src/main.rs:95) answers false there, so the source skips that entry silently, as the model does for every `File`.
  - `BadEntry` covers an entry that the listing fails to produce.
- Error messages are reduced to the kind of failure. The `anyhow` context strings are left out. Only the config error names a path in the source (src/main.rs:72); the model also attaches a path to `ListError` and `EntryError`, which the source's `Failed to read directory` and `Failed to read directory entry` messages (src/main.rs:91-92) do not name, and to `PrefixError`, where the source's `strip_prefix(dir)?` error (src/main.rs:100, 107) names none either. `PrefixError` cannot occur: `GitTree.StripChild` proves that the joined path always strips.
- The `.git` directory is not derived from `config`. A directory's `config` field stands for its `.git/config` file; for the walk to visit the `.git` directory as the source does (walking into it in recursive mode, checking `.git/.git/config` otherwise), that directory must also appear among the directory's `entries`. `GitTree.GitMetadata` is such an entry, and the scenario lemmas include it. A tree whose `entries` omit it, or give it contents that do not match `config`, has no counterpart on a real filesystem.
- Symbolic links and cycles are left out. The filesystem is an inductive datatype, so every tree is finite and acyclic.
- Non-UTF-8 file names and the byte-level encoding of strings are left out. Strings are sequences of Unicode scalar values. The byte slice `line[8..len-1]` cuts after the ASCII prefix `[remote ` and before the ASCII suffix `]`, so it selects the same text as the character slice the model takes, even when the name holds multi-byte characters.
