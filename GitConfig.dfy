/**
 * The remote extractor of `src/main.rs`: a line-by-line reader of a
 * `.git/config` file that keeps one piece of state, the name from the last
 * `[remote "..."]` header read (headers of other sections do not change
 * it), and records every `url = ...` line under that name. The file is given as the sequence of its lines (what
 * `BufReader::lines` yields); opening and decoding it are left to the caller.
 */
module GitConfig {
  import opened Wrappers
  import opened Text

  const HeaderPrefix := "[remote "
  const HeaderSuffix := "]"
  const UrlPrefix := "url = "

  /** What one line of the file means to the parser. */
  datatype LineKind = Header(name: string) | Url(value: string) | Other

  /** A trimmed line that starts with `[remote ` and ends with `]` has at least 9 characters. */
  lemma HeaderLineLength(t: string)
    requires StartsWith(t, HeaderPrefix) && EndsWith(t, HeaderSuffix)
    ensures |t| >= |HeaderPrefix| + |HeaderSuffix|
  {
    assert t[7] == t[..|HeaderPrefix|][7] == ' ';
    assert t[|t| - 1] == t[|t| - 1..][0] == ']';
  }

  /**
   * The two line rules, tested on the trimmed line in the source's order:
   * a section header first, then a `url = ` line. No line matches both, so
   * a line triggers at most one rule.
   */
  function Classify(line: string): (k: LineKind)
    ensures k.Header? <==> StartsWith(Trim(line), HeaderPrefix) && EndsWith(Trim(line), HeaderSuffix)
    ensures k.Url? <==> StartsWith(Trim(line), UrlPrefix)
    ensures k.Url? ==> Trim(line) == UrlPrefix + k.value
  {
    ClassifyTrimmed(Trim(line))
  }

  function ClassifyTrimmed(t: string): (k: LineKind)
    ensures k.Header? <==> StartsWith(t, HeaderPrefix) && EndsWith(t, HeaderSuffix)
    ensures k.Url? <==> StartsWith(t, UrlPrefix)
    ensures k.Header? ==>
      && |t| >= 9
      && t == HeaderPrefix + t[8..|t| - 1] + HeaderSuffix
      && k.name == RemoveQuotes(t[8..|t| - 1])
    ensures k.Url? ==> t == UrlPrefix + k.value
  {
    if StartsWith(t, HeaderPrefix) && EndsWith(t, HeaderSuffix) then
      HeaderLineLength(t);
      assert t == t[..8] + t[8..|t| - 1] + t[|t| - 1..];
      assert !StartsWith(t, UrlPrefix) by { assert t[0] == HeaderPrefix[0] != UrlPrefix[0]; }
      Header(RemoveQuotes(t[|HeaderPrefix|..|t| - |HeaderSuffix|]))
    else if StartsWith(t, UrlPrefix) then
      assert t == t[..6] + t[6..];
      Url(t[|UrlPrefix|..])
    else
      Other
  }

  /** The parser's state: the active remote and the remotes recorded so far. */
  datatype ParserState = ParserState(current: Option<string>, remotes: map<string, string>)

  const Initial := ParserState(None, map[])

  /**
   * One line's effect. A header changes only the active remote; a `url = `
   * line changes only the entry of the active remote; any other line, or a
   * `url = ` line with no active remote, changes nothing.
   */
  function Step(s: ParserState, line: string): (r: ParserState)
    ensures r.current == if Classify(line).Header? then Some(Classify(line).name) else s.current
    ensures r.remotes == if Classify(line).Url? && s.current.Some?
                         then s.remotes[s.current.value := Classify(line).value] else s.remotes
  {
    match Classify(line)
    case Header(name) => s.(current := Some(name))
    case Url(url) =>
      if s.current.Some? then s.(remotes := s.remotes[s.current.value := url]) else s
    case Other => s
  }

  /**
   * What one line may change: a `url = ` line under an active remote adds or
   * replaces that remote's entry and touches no other; every other line that
   * is not a header, including a `url = ` line with no active remote, leaves
   * the whole state as it was.
   */
  lemma StepEffect(s: ParserState, line: string)
    ensures Classify(line).Url? && s.current.Some? ==>
      && Step(s, line).remotes.Keys == s.remotes.Keys + {s.current.value}
      && Step(s, line).remotes[s.current.value] == Classify(line).value
      && forall k :: k in s.remotes && k != s.current.value ==> Step(s, line).remotes[k] == s.remotes[k]
    ensures Classify(line).Other? || (Classify(line).Url? && s.current.None?) ==> Step(s, line) == s
  {
  }

  /** The state after reading `lines` one by one from `s`. */
  function Run(s: ParserState, lines: seq<string>): ParserState
    decreases |lines|
  {
    if lines == [] then s
    else Step(Run(s, lines[..|lines| - 1]), lines[|lines| - 1])
  }

  /** The remotes map the parser builds from a whole file. */
  function ParseConfig(lines: seq<string>): map<string, string> {
    Run(Initial, lines).remotes
  }

  /** The `parse_git_config` loop, over the lines of a file that opened and read cleanly. */
  method ParseGitConfig(lines: seq<string>) returns (remotes: map<string, string>)
    ensures remotes == ParseConfig(lines)
    ensures forall name :: Lookup(remotes, name) == LastUrlOf(lines, name)
  {
    remotes := map[];
    var current: Option<string> := None;
    for i := 0 to |lines|
      invariant ParserState(current, remotes) == Run(Initial, lines[..i])
    {
      assert lines[..i + 1][..i] == lines[..i];
      var line := Trim(lines[i]);
      if StartsWith(line, HeaderPrefix) && EndsWith(line, HeaderSuffix) {
        HeaderLineLength(line);
        current := Some(RemoveQuotes(line[|HeaderPrefix|..|line| - |HeaderSuffix|]));
      } else if StartsWith(line, UrlPrefix) {
        if current.Some? {
          remotes := remotes[current.value := line[|UrlPrefix|..]];
        }
      }
    }
    assert lines[..|lines|] == lines;
    ParseMatchesLastUrl(lines);
  }

  function Lookup(m: map<string, string>, key: string): Option<string> {
    if key in m then Some(m[key]) else None
  }

  /** The name of the last section header among `lines`, if any. */
  function LastHeader(lines: seq<string>): Option<string> {
    if lines == [] then None
    else if Classify(lines[|lines| - 1]).Header? then Some(Classify(lines[|lines| - 1]).name)
    else LastHeader(lines[..|lines| - 1])
  }

  /**
   * Reference reading of a config file, per remote name: the value of the
   * last `url = ` line whose nearest preceding `[remote ` header names `name`,
   * whatever sections of other kinds come between.
   */
  function LastUrlOf(lines: seq<string>, name: string): Option<string> {
    if lines == [] then None
    else
      var init := lines[..|lines| - 1];
      var k := Classify(lines[|lines| - 1]);
      if k.Url? && LastHeader(init) == Some(name) then Some(k.value)
      else LastUrlOf(init, name)
  }

  /** After any prefix of the file, the active remote is the last header seen. */
  lemma {:induction false} ActiveIsLastHeader(lines: seq<string>)
    ensures Run(Initial, lines).current == LastHeader(lines)
  {
    if lines != [] {
      ActiveIsLastHeader(lines[..|lines| - 1]);
    }
  }

  /**
   * The parser agrees with the reference reading: a name is a key exactly
   * when some `url = ` line has a header of that name as its nearest
   * preceding `[remote ` header, whatever sections of other kinds come
   * between, and its value is the last such line's (last write wins).
   */
  lemma {:induction false} ParseMatchesLastUrl(lines: seq<string>)
    ensures forall name :: Lookup(ParseConfig(lines), name) == LastUrlOf(lines, name)
  {
    if lines != [] {
      var init := lines[..|lines| - 1];
      ParseMatchesLastUrl(init);
      ActiveIsLastHeader(init);
    }
  }

  /** A last header is the name of some header line. */
  lemma {:induction false} LastHeaderOccurs(lines: seq<string>, name: string)
    requires LastHeader(lines) == Some(name)
    ensures exists h :: HeaderAt(lines, name, h)
  {
    var init := lines[..|lines| - 1];
    if Classify(lines[|lines| - 1]).Header? {
      assert HeaderAt(lines, name, |lines| - 1);
    } else {
      LastHeaderOccurs(init, name);
      var h :| HeaderAt(init, name, h);
      HeaderAtInPrefix(init, lines, name, h);
    }
  }

  /** A header in a prefix is still there in the whole file. */
  lemma HeaderAtInPrefix(init: seq<string>, lines: seq<string>, name: string, h: int)
    requires lines != [] && init == lines[..|lines| - 1] && HeaderAt(init, name, h)
    ensures HeaderAt(lines, name, h)
  {
    assert lines[h] == init[h];
  }

  /** Line `h` is a header naming `name`. */
  ghost predicate HeaderAt(lines: seq<string>, name: string, h: int) {
    0 <= h < |lines| && Classify(lines[h]) == Header(name)
  }

  /** Line `h` is a header naming `name` and a later line `i` is a `url = ` line. */
  ghost predicate HeaderThenUrl(lines: seq<string>, name: string, h: int, i: int) {
    0 <= h < i < |lines| && Classify(lines[h]) == Header(name) && Classify(lines[i]).Url?
  }

  /** Every key of the result was named by a header that some later `url = ` line follows. */
  lemma KeysComeFromHeaders(lines: seq<string>, name: string)
    requires name in ParseConfig(lines)
    ensures exists h, i :: HeaderThenUrl(lines, name, h, i)
  {
    ParseMatchesLastUrl(lines);
    assert Lookup(ParseConfig(lines), name).Some?;
    LastUrlOccurs(lines, name);
  }

  lemma {:induction false} LastUrlOccurs(lines: seq<string>, name: string)
    requires LastUrlOf(lines, name).Some?
    ensures exists h, i :: HeaderThenUrl(lines, name, h, i)
  {
    var init := lines[..|lines| - 1];
    if Classify(lines[|lines| - 1]).Url? && LastHeader(init) == Some(name) {
      UrlAfterLastHeader(lines, name);
    } else {
      LastUrlOccurs(init, name);
      HeaderThenUrlInPrefix(init, lines, name);
    }
  }

  /** A final `url = ` line whose nearest header names `name` follows that header. */
  lemma UrlAfterLastHeader(lines: seq<string>, name: string)
    requires lines != [] && Classify(lines[|lines| - 1]).Url? && LastHeader(lines[..|lines| - 1]) == Some(name)
    ensures exists h, i :: HeaderThenUrl(lines, name, h, i)
  {
    var init := lines[..|lines| - 1];
    LastHeaderOccurs(init, name);
    var h :| HeaderAt(init, name, h);
    assert lines[h] == init[h];
    assert HeaderThenUrl(lines, name, h, |lines| - 1);
  }

  /** A header and a later `url = ` line in a prefix are still there in the whole file. */
  lemma HeaderThenUrlInPrefix(init: seq<string>, lines: seq<string>, name: string)
    requires lines != [] && init == lines[..|lines| - 1] && exists h, i :: HeaderThenUrl(init, name, h, i)
    ensures exists h, i :: HeaderThenUrl(lines, name, h, i)
  {
    var h, i :| HeaderThenUrl(init, name, h, i);
    assert lines[h] == init[h] && lines[i] == init[i];
    assert HeaderThenUrl(lines, name, h, i);
  }

  /** `url = ` lines before the first header are ignored: no header, no remotes. */
  lemma {:induction false} NoHeaderNoRemotes(lines: seq<string>)
    requires forall i :: 0 <= i < |lines| ==> !Classify(lines[i]).Header?
    ensures ParseConfig(lines) == map[]
  {
    if lines != [] {
      var init := lines[..|lines| - 1];
      assert forall i :: 0 <= i < |init| ==> init[i] == lines[i];
      NoHeaderNoRemotes(init);
      ActiveIsLastHeader(init);
      NoHeaderNoneActive(init);
    }
  }

  lemma {:induction false} NoHeaderNoneActive(lines: seq<string>)
    requires forall i :: 0 <= i < |lines| ==> !Classify(lines[i]).Header?
    ensures LastHeader(lines) == None
  {
    if lines != [] {
      var init := lines[..|lines| - 1];
      assert forall i :: 0 <= i < |init| ==> init[i] == lines[i];
      NoHeaderNoneActive(init);
    }
  }

  /*
   * Well-formed files: a run of `[remote "<name>"]` sections, each followed
   * by one indented `url = <url>` line.
   */

  function HeaderLine(name: string): string {
    HeaderPrefix + "\"" + name + "\"" + HeaderSuffix
  }

  function UrlLine(indent: string, url: string): string {
    indent + UrlPrefix + url
  }

  function SectionLines(sections: seq<(string, string)>, indent: string): (lines: seq<string>)
    ensures |lines| == 2 * |sections|
  {
    if sections == [] then []
    else
      var (name, url) := sections[|sections| - 1];
      SectionLines(sections[..|sections| - 1], indent) + [HeaderLine(name), UrlLine(indent, url)]
  }

  /** The map the sections declare, a later section overriding an earlier one of the same name. */
  function MapOf(sections: seq<(string, string)>): map<string, string> {
    if sections == [] then map[]
    else
      var (name, url) := sections[|sections| - 1];
      MapOf(sections[..|sections| - 1])[name := url]
  }

  /** A name without quotes and a URL that trimming leaves intact. */
  predicate WellFormedSections(sections: seq<(string, string)>) {
    forall k :: 0 <= k < |sections| ==>
      && NoQuotes(sections[k].0)
      && sections[k].1 != []
      && !IsWhitespace(sections[k].1[|sections[k].1| - 1])
  }

  /** A `[remote "<name>"]` header activates `<name>`, its quotes removed. */
  lemma ClassifyHeaderLine(name: string)
    requires NoQuotes(name)
    ensures Classify(HeaderLine(name)) == Header(name)
  {
    var t := HeaderLine(name);
    assert [] + t + [] == t;
    TrimPadded([], t, []);
    ClassifyTrimmedHeader(name);
  }

  lemma ClassifyTrimmedHeader(name: string)
    requires NoQuotes(name)
    ensures ClassifyTrimmed(HeaderLine(name)) == Header(name)
  {
    var q := "\"" + name + "\"";
    var t := HeaderLine(name);
    assert t == HeaderPrefix + q + HeaderSuffix;
    SplitThree(HeaderPrefix, q, HeaderSuffix);
    QuotedName(name);
  }

  /** The three pieces of a concatenation are its slices. */
  lemma SplitThree(a: string, b: string, c: string)
    ensures (a + b + c)[..|a|] == a
    ensures (a + b + c)[|a|..|a| + |b|] == b
    ensures (a + b + c)[|a| + |b|..] == c
  {
  }

  lemma QuotedName(name: string)
    requires NoQuotes(name)
    ensures RemoveQuotes("\"" + name + "\"") == name
  {
    RemoveQuotesConcat("\"" + name, "\"");
    RemoveQuotesConcat("\"", name);
    RemoveQuotesUnquoted(name);
  }

  /** An indented `url = <url>` line yields `<url>`. */
  lemma ClassifyUrlLine(indent: string, url: string)
    requires AllWhitespace(indent)
    requires url != [] && !IsWhitespace(url[|url| - 1])
    ensures Classify(UrlLine(indent, url)) == Url(url)
  {
    var t := UrlPrefix + url;
    assert indent + t + [] == UrlLine(indent, url);
    TrimPadded(indent, t, []);
    ClassifyTrimmedUrl(url);
  }

  lemma ClassifyTrimmedUrl(url: string)
    ensures ClassifyTrimmed(UrlPrefix + url) == Url(url)
  {
    var t := UrlPrefix + url;
    assert t[..|UrlPrefix|] == UrlPrefix;
    assert t[0] == 'u';
  }

  /** Reading a file in two pieces is reading it whole. */
  lemma {:induction false} RunAppend(s: ParserState, a: seq<string>, b: seq<string>)
    ensures Run(s, a + b) == Run(Run(s, a), b)
    decreases |b|
  {
    if b == [] {
      assert a + b == a;
    } else {
      assert (a + b)[..|a + b| - 1] == a + b[..|b| - 1];
      RunAppend(s, a, b[..|b| - 1]);
    }
  }

  /** One well-formed section sets its name's entry, whatever came before. */
  lemma RunSection(s: ParserState, name: string, url: string, indent: string)
    requires NoQuotes(name) && url != [] && !IsWhitespace(url[|url| - 1]) && AllWhitespace(indent)
    ensures Run(s, [HeaderLine(name), UrlLine(indent, url)]).remotes == s.remotes[name := url]
  {
    ClassifyHeaderLine(name);
    ClassifyUrlLine(indent, url);
    RunHeaderThenUrl(s, HeaderLine(name), UrlLine(indent, url), name, url);
  }

  /** A header line followed by a url line sets that header's entry. */
  lemma RunHeaderThenUrl(s: ParserState, h: string, u: string, name: string, url: string)
    requires Classify(h) == Header(name) && Classify(u) == Url(url)
    ensures Run(s, [h, u]).remotes == s.remotes[name := url]
  {
    RunTwo(s, h, u);
    StepEffect(s, h);
    StepEffect(Step(s, h), u);
  }

  /** Reading two lines is stepping twice. */
  lemma RunTwo(s: ParserState, a: string, b: string)
    ensures Run(s, [a, b]) == Step(Step(s, a), b)
  {
    assert [a][..0] == [];
    assert Run(s, [a]) == Step(s, a);
    assert [a, b][..1] == [a];
    assert Run(s, [a, b]) == Step(Run(s, [a]), b);
  }

  /**
   * Only `[remote ` headers change the active remote: a `url = ` line after a
   * header of another kind (`[submodule ...]`, `[branch ...]`) is still
   * recorded under the last remote.
   */
  lemma OtherSectionUrlGoesToRemote(s: ParserState, other: string, u: string, url: string)
    requires s.current.Some? && Classify(other).Other? && Classify(u) == Url(url)
    ensures Run(s, [other, u]).remotes == s.remotes[s.current.value := url]
  {
    RunTwo(s, other, u);
  }

  /** Well-formed sections parse to the map they declare. */
  lemma {:induction false} SectionsParse(sections: seq<(string, string)>, indent: string)
    requires WellFormedSections(sections) && AllWhitespace(indent)
    ensures ParseConfig(SectionLines(sections, indent)) == MapOf(sections)
  {
    if sections != [] {
      var init := sections[..|sections| - 1];
      var (name, url) := sections[|sections| - 1];
      assert WellFormedSections(init) by {
        assert forall k :: 0 <= k < |init| ==> init[k] == sections[k];
      }
      SectionsParse(init, indent);
      RunAppend(Initial, SectionLines(init, indent), [HeaderLine(name), UrlLine(indent, url)]);
      RunSection(Run(Initial, SectionLines(init, indent)), name, url, indent);
    }
  }

  /** N sections with distinct names give a map of size N holding each name's URL. */
  lemma {:induction false} MapOfDistinct(sections: seq<(string, string)>)
    requires forall j, k :: 0 <= j < k < |sections| ==> sections[j].0 != sections[k].0
    ensures |MapOf(sections)| == |sections|
    ensures forall k :: 0 <= k < |sections| ==>
      sections[k].0 in MapOf(sections) && MapOf(sections)[sections[k].0] == sections[k].1
  {
    if sections != [] {
      var init := sections[..|sections| - 1];
      var last := sections[|sections| - 1];
      assert MapOf(sections) == MapOf(init)[last.0 := last.1];
      MapOfDistinct(init);
      assert last.0 !in MapOf(init) by {
        MapOfKeys(init);
      }
    }
  }

  lemma {:induction false} MapOfKeys(sections: seq<(string, string)>)
    ensures forall name :: name in MapOf(sections) ==> exists j :: 0 <= j < |sections| && sections[j].0 == name
  {
    if sections != [] {
      var init := sections[..|sections| - 1];
      var last := sections[|sections| - 1];
      assert MapOf(sections) == MapOf(init)[last.0 := last.1];
      MapOfKeys(init);
      forall name | name in MapOf(sections)
        ensures exists j :: 0 <= j < |sections| && sections[j].0 == name
      {
        if name != last.0 {
          var j :| 0 <= j < |init| && init[j].0 == name;
          assert sections[j].0 == name;
        } else {
          assert sections[|sections| - 1].0 == name;
        }
      }
    }
  }

  /** A first line that matches no rule changes nothing. */
  lemma LeadingOtherIgnored(line: string, lines: seq<string>)
    requires Classify(line).Other?
    ensures Run(Initial, [line] + lines) == Run(Initial, lines)
  {
    RunAppend(Initial, [line], lines);
    assert Run(Initial, [line]) == Step(Initial, line) by {
      assert [line][..0] == [];
    }
  }

  /** A blank line matches neither rule. */
  lemma BlankIsOther()
    ensures Classify(Blank).Other?
  {
  }

  /*
   * The configuration files of the source's parser tests: one `origin`
   * section, and an `origin` and an `upstream` section after a blank line.
   */
  const Origin := "origin"
  const Upstream := "upstream"
  const RepoUrl := "https://github.com/user/repo.git"
  const UpstreamUrl := "https://github.com/upstream/repo.git"
  const Indent := "    "

  /** The indentation the examples use is whitespace only. */
  lemma IndentIsWhitespace()
    ensures AllWhitespace(Indent)
  {
  }
  const Blank := ""

  const SubmodulePrefix := "[submodule "

  /** A `[submodule "<name>"]` header line. */
  function SubmoduleLine(name: string): string {
    SubmodulePrefix + "\"" + name + "\"" + HeaderSuffix
  }

  /** A submodule header matches neither rule. */
  lemma SubmoduleLineIsOther(name: string)
    ensures Classify(SubmoduleLine(name)).Other?
  {
    var t := SubmoduleLine(name);
    assert [] + t + [] == t;
    TrimPadded([], t, []);
    ClassifyTrimmedSubmodule(name);
  }

  lemma ClassifyTrimmedSubmodule(name: string)
    ensures ClassifyTrimmed(SubmoduleLine(name)).Other?
  {
    var t := SubmoduleLine(name);
    assert t == SubmodulePrefix + ("\"" + name + "\"" + HeaderSuffix);
    assert !StartsWith(t, HeaderPrefix) by {
      assert t[1] == 's' != HeaderPrefix[1];
    }
    assert !StartsWith(t, UrlPrefix) by {
      assert t[0] == '[' != UrlPrefix[0];
    }
  }

  /**
   * A submodule's `url = ` line in the same file overwrites the URL of the
   * remote declared before it.
   */
  lemma SubmoduleUrlOverwritesRemote(sub: string, url: string, subUrl: string)
    requires url != [] && !IsWhitespace(url[|url| - 1])
    requires subUrl != [] && !IsWhitespace(subUrl[|subUrl| - 1])
    ensures ParseConfig([HeaderLine(Origin), UrlLine(Indent, url), SubmoduleLine(sub), UrlLine(Indent, subUrl)])
         == map[Origin := subUrl]
  {
    RemoteSectionLines(Origin, url);
    SubmoduleSectionLines(sub, subUrl);
    LaterUrlOverwrites(HeaderLine(Origin), UrlLine(Indent, url), SubmoduleLine(sub), UrlLine(Indent, subUrl),
                       Origin, url, subUrl);
  }

  lemma RemoteSectionLines(name: string, url: string)
    requires NoQuotes(name) && url != [] && !IsWhitespace(url[|url| - 1])
    ensures Classify(HeaderLine(name)) == Header(name) && Classify(UrlLine(Indent, url)) == Url(url)
  {
    ClassifyHeaderLine(name);
    IndentIsWhitespace();
    ClassifyUrlLine(Indent, url);
  }

  lemma SubmoduleSectionLines(sub: string, url: string)
    requires url != [] && !IsWhitespace(url[|url| - 1])
    ensures Classify(SubmoduleLine(sub)).Other? && Classify(UrlLine(Indent, url)) == Url(url)
  {
    SubmoduleLineIsOther(sub);
    IndentIsWhitespace();
    ClassifyUrlLine(Indent, url);
  }

  /** A remote's section, then a section of another kind with its own `url = ` line. */
  lemma LaterUrlOverwrites(h: string, u: string, o: string, v: string, name: string, url: string, later: string)
    requires Classify(h) == Header(name) && Classify(u) == Url(url)
    requires Classify(o).Other? && Classify(v) == Url(later)
    ensures ParseConfig([h, u, o, v]) == map[name := later]
  {
    RunSplit(h, u, o, v);
    SectionState(h, u, name, url);
    OtherSectionUrlGoesToRemote(ParserState(Some(name), map[name := url]), o, v, later);
    Overwrite(name, url, later);
  }

  /** A header and its url line, read first, leave that remote active with that URL. */
  lemma SectionState(h: string, u: string, name: string, url: string)
    requires Classify(h) == Header(name) && Classify(u) == Url(url)
    ensures Run(Initial, [h, u]) == ParserState(Some(name), map[name := url])
  {
    RunTwo(Initial, h, u);
  }

  lemma RunSplit(h: string, u: string, o: string, v: string)
    ensures Run(Initial, [h, u, o, v]) == Run(Run(Initial, [h, u]), [o, v])
  {
    assert [h, u] + [o, v] == [h, u, o, v];
    RunAppend(Initial, [h, u], [o, v]);
  }

  lemma Overwrite(k: string, a: string, b: string)
    ensures map[k := a][k := b] == map[k := b]
  {
  }

  lemma OneRemoteExample()
    ensures var remotes := ParseConfig([HeaderLine(Origin), UrlLine(Indent, RepoUrl)]);
      |remotes| == 1 && Origin in remotes && remotes[Origin] == RepoUrl
  {
    var sections := [(Origin, RepoUrl)];
    assert SectionLines(sections, Indent) == [HeaderLine(Origin), UrlLine(Indent, RepoUrl)];
    IndentIsWhitespace();
    SectionsParse(sections, Indent);
    MapOfDistinct(sections);
  }

  lemma TwoRemotesExample()
    ensures var remotes := ParseConfig([Blank,
      HeaderLine(Origin), UrlLine(Indent, RepoUrl),
      HeaderLine(Upstream), UrlLine(Indent, UpstreamUrl)]);
      && |remotes| == 2
      && Origin in remotes && remotes[Origin] == RepoUrl
      && Upstream in remotes && remotes[Upstream] == UpstreamUrl
  {
    var h1, u1, h2, u2 := HeaderLine(Origin), UrlLine(Indent, RepoUrl),
                          HeaderLine(Upstream), UrlLine(Indent, UpstreamUrl);
    assert [Blank] + [h1, u1, h2, u2] == [Blank, h1, u1, h2, u2];
    IndentIsWhitespace();
    TwoSections(Origin, RepoUrl, Upstream, UpstreamUrl, Indent);
    BlankIsOther();
    LeadingOtherIgnored(Blank, [h1, u1, h2, u2]);
  }

  /** Two well-formed sections with different names give a map of exactly those two remotes. */
  lemma TwoSections(first: string, url: string, second: string, url': string, indent: string)
    requires WellFormedSections([(first, url), (second, url')]) && AllWhitespace(indent)
    requires first != second
    ensures var remotes := ParseConfig([HeaderLine(first), UrlLine(indent, url),
                                        HeaderLine(second), UrlLine(indent, url')]);
      && |remotes| == 2
      && first in remotes && remotes[first] == url
      && second in remotes && remotes[second] == url'
  {
    var sections := [(first, url), (second, url')];
    TwoSectionLines(first, url, second, url', indent);
    SectionsParse(sections, indent);
    TwoSectionMap(first, url, second, url');
  }

  /** Two sections as lines: each header followed by its url line. */
  lemma TwoSectionLines(first: string, url: string, second: string, url': string, indent: string)
    ensures SectionLines([(first, url), (second, url')], indent) ==
      [HeaderLine(first), UrlLine(indent, url), HeaderLine(second), UrlLine(indent, url')]
  {
    assert [(first, url), (second, url')][..1] == [(first, url)];
    assert [(first, url)][..0] == [];
  }

  /** Two sections with different names declare a map of exactly those two entries. */
  lemma TwoSectionMap(first: string, url: string, second: string, url': string)
    requires first != second
    ensures var m := MapOf([(first, url), (second, url')]);
      |m| == 2 && first in m && m[first] == url && second in m && m[second] == url'
  {
    var sections := [(first, url), (second, url')];
    MapOfDistinct(sections);
    assert sections[0] == (first, url) && sections[1] == (second, url');
  }
}
