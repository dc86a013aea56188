/** The pure helpers of the landing page: reading the GitHub repository from
    the environment, the install command of each package manager, and the
    code snippets shown beside the demos. */
module LandingPage {
  import opened Wrappers
  import opened Seqs
  import opened Strings

  // ---------------------------------------------------------------- parseRepo

  /** `\w`: an ASCII letter, digit or underscore. */
  predicate IsWordChar(c: char) {
    ('A' <= c <= 'Z') || ('a' <= c <= 'z') || ('0' <= c <= '9') || c == '_'
  }

  /** `[\w-]` */
  predicate IsOwnerChar(c: char) {
    IsWordChar(c) || c == '-'
  }

  /** `[\w.-]` */
  predicate IsRepoChar(c: char) {
    IsWordChar(c) || c == '.' || c == '-'
  }

  /** What `/^[\w-]+\/[\w.-]+$/` accepts: owner characters, one slash, then
      repository-name characters, both parts non-empty. */
  ghost predicate RepoShaped(s: string) {
    exists k :: SplitsAsOwnerRepo(s, k)
  }

  /** The owner part is `s[..k]`, non-empty, and the name part `s[k + 1..]`. */
  ghost predicate SplitsAsOwnerRepo(s: string, k: int) {
    k > 0 && OwnerTailAt(s, k)
  }

  /** `/^[\w-]+\/[\w.-]+$/.test(s)`, as a left-to-right matcher; it accepts
      exactly the strings of the regular expression. */
  function MatchesRepoPattern(s: string): (m: bool)
    ensures m <==> RepoShaped(s)
  {
    OwnerFirstIff(s);
    s != [] && IsOwnerChar(s[0]) && MatchOwnerTail(s[1..])
  }

  /** `[\w-]*\/[\w.-]+$` */
  predicate MatchOwnerTail(s: string) {
    s != [] && if s[0] == '/' then MatchRepoName(s[1..]) else IsOwnerChar(s[0]) && MatchOwnerTail(s[1..])
  }

  /** `[\w.-]+$` */
  predicate MatchRepoName(s: string) {
    s != [] && forall k :: 0 <= k < |s| ==> IsRepoChar(s[k])
  }

  /** Proof step of `MatchesRepoPattern`: a first owner character followed by
      an accepted owner tail is a split of the whole string. */
  lemma OwnerFirstIff(s: string)
    ensures (s != [] && IsOwnerChar(s[0]) && MatchOwnerTail(s[1..])) <==> RepoShaped(s)
  {
    if s != [] && IsOwnerChar(s[0]) {
      MatchOwnerTailIff(s[1..]);
      if MatchOwnerTail(s[1..]) {
        var k :| OwnerTailAt(s[1..], k);
        assert SplitsAsOwnerRepo(s, k + 1);
      }
      if k :| SplitsAsOwnerRepo(s, k) {
        assert OwnerTailAt(s[1..], k - 1);
      }
    }
  }

  /** The owner characters run up to the slash at `k`, the name characters
      follow it, and the name part is non-empty. */
  ghost predicate OwnerTailAt(s: string, k: int) {
    && 0 <= k < |s| - 1 && s[k] == '/'
    && (forall j :: 0 <= j < k ==> IsOwnerChar(s[j]))
    && (forall j :: k < j < |s| ==> IsRepoChar(s[j]))
  }

  lemma {:induction false} MatchOwnerTailIff(s: string)
    ensures MatchOwnerTail(s) <==> exists k :: OwnerTailAt(s, k)
  {
    if s != [] {
      if s[0] == '/' {
        if MatchRepoName(s[1..]) {
          assert OwnerTailAt(s, 0);
        }
        if k :| OwnerTailAt(s, k) {
          assert !IsOwnerChar(s[0]);
          assert k == 0;
        }
      } else {
        MatchOwnerTailIff(s[1..]);
        if IsOwnerChar(s[0]) && MatchOwnerTail(s[1..]) {
          var k :| OwnerTailAt(s[1..], k);
          assert OwnerTailAt(s, k + 1);
        }
        if k :| OwnerTailAt(s, k) {
          assert OwnerTailAt(s[1..], k - 1);
        }
      }
    }
  }

  /** Exactly one slash, with text on both sides of it. */
  ghost predicate IsOwnerSlashRepo(r: string) {
    exists k :: OnlySlashAt(r, k)
  }

  ghost predicate OnlySlashAt(r: string, k: int) {
    && 0 < k < |r| - 1 && r[k] == '/'
    && forall j :: 0 <= j < |r| && j != k ==> r[j] != '/'
  }

  predicate NonEmpty(segment: string) {
    segment != []
  }

  /** `parseRepo`: a repository "owner/name" from an environment value that
      is either that pair or a URL. `urlPathname` stands for `new URL(...)`:
      the pathname of a string that parses as a URL, None when it throws. */
  function ParseRepo(input: Option<string>, urlPathname: string -> Option<string>): (r: Option<string>)
    ensures input.None? || input.value == "" ==> r.None?
    ensures r.Some? ==> IsOwnerSlashRepo(r.value)
    ensures input.Some? && input.value != "" && MatchesRepoPattern(Trim(input.value)) ==>
      r == Some(Trim(input.value))
    ensures (input.Some? && input.value != "" && !MatchesRepoPattern(Trim(input.value))
      && urlPathname(Trim(input.value)).None?) ==> r.None?
  {
    if input.None? || input.value == "" then None
    else
      var t := Trim(input.value);
      if MatchesRepoPattern(t) then
        PatternHasOneSlash(t);
        Some(t)
      else
        match urlPathname(t)
        case None => None
        case Some(path) =>
          var parts := Filter(NonEmpty, Split(path, '/'));
          if |parts| >= 2 then
            SegmentsHaveOneSlash(parts);
            Some(parts[0] + "/" + parts[1])
          else None
  }

  lemma PatternHasOneSlash(t: string)
    requires MatchesRepoPattern(t)
    ensures IsOwnerSlashRepo(t)
  {
    var k :| SplitsAsOwnerRepo(t, k);
    assert OnlySlashAt(t, k);
  }

  /** Two non-empty path segments joined by a slash have that slash only. */
  lemma SegmentsHaveOneSlash(parts: seq<string>)
    requires |parts| >= 2 && parts[0] != "" && parts[1] != ""
    requires '/' !in parts[0] && '/' !in parts[1]
    ensures IsOwnerSlashRepo(parts[0] + "/" + parts[1])
  {
    assert OnlySlashAt(parts[0] + "/" + parts[1], |parts[0]|);
  }

  /** A URL whose pathname is made of the given segments yields its first two
      non-empty segments, whatever follows them. */
  lemma ParseRepoFromPath(input: string, urlPathname: string -> Option<string>, segments: seq<string>)
    requires input != "" && !MatchesRepoPattern(Trim(input))
    requires |segments| >= 1 && forall k :: 0 <= k < |segments| ==> '/' !in segments[k]
    requires urlPathname(Trim(input)) == Some(Join(segments, '/'))
    ensures var named := Filter(NonEmpty, segments);
      ParseRepo(Some(input), urlPathname) == if |named| >= 2 then Some(named[0] + "/" + named[1]) else None
  {
    SplitJoin(segments, '/');
  }

  /** An environment variable that is present and not empty (truthy). */
  predicate IsSet(v: Option<string>) {
    v.Some? && v.value != ""
  }

  /** The value of `NEXT_PUBLIC_GITHUB_REPO || NEXT_PUBLIC_GITHUB_REPO_URL ||
      <default URL>`: the first variable that is set to a non-empty value. */
  function RepoFromEnv(repoVar: Option<string>, repoUrlVar: Option<string>): (v: string)
    ensures v != ""
    ensures IsSet(repoVar) ==> v == repoVar.value
    ensures !IsSet(repoVar) && IsSet(repoUrlVar) ==> v == repoUrlVar.value
    ensures !IsSet(repoVar) && !IsSet(repoUrlVar) ==> v == DefaultRepoUrl
  {
    if IsSet(repoVar) then repoVar.value
    else if IsSet(repoUrlVar) then repoUrlVar.value
    else DefaultRepoUrl
  }

  const DefaultRepoUrl := "https://github.com/rimu-7/next-toast"
  const DefaultRepo := "rimu-7/next-toast"
  const GitHubPrefix := "https://github.com/"

  /** `repo`: the parsed repository, or the project's own when parsing fails. */
  function Repo(repoVar: Option<string>, repoUrlVar: Option<string>, urlPathname: string -> Option<string>): (repo: string)
    ensures IsOwnerSlashRepo(repo)
    ensures var parsed := ParseRepo(Some(RepoFromEnv(repoVar, repoUrlVar)), urlPathname);
      (parsed.None? ==> repo == DefaultRepo) && (parsed.Some? ==> repo == parsed.value)
  {
    assert OnlySlashAt(DefaultRepo, 6);
    ParseRepo(Some(RepoFromEnv(repoVar, repoUrlVar)), urlPathname).GetOr(DefaultRepo)
  }

  /** `repoUrl`: the GitHub prefix, then the repository, which can be read
      back from the link. */
  function RepoUrl(repo: string): (url: string)
    ensures |url| == |GitHubPrefix| + |repo|
    ensures url[..|GitHubPrefix|] == GitHubPrefix && url[|GitHubPrefix|..] == repo
  {
    GitHubPrefix + repo
  }

  /** An "owner/name" value in the first variable is the repository, whatever
      the other variable holds. */
  lemma RepoPrefersPair(repoVar: Option<string>, repoUrlVar: Option<string>, urlPathname: string -> Option<string>)
    requires IsSet(repoVar) && MatchesRepoPattern(repoVar.value)
    ensures Repo(repoVar, repoUrlVar, urlPathname) == repoVar.value
  {
    var v := repoVar.value;
    var k :| SplitsAsOwnerRepo(v, k);
    assert IsOwnerChar(v[0]) && IsRepoChar(v[|v| - 1]);
    TrimVisible(v);
  }

  /** The GitHub link always points at one repository page: the GitHub prefix
      followed by a single-slash pair. */
  lemma RepoLinkShape(repoVar: Option<string>, repoUrlVar: Option<string>, urlPathname: string -> Option<string>)
    ensures var url := RepoUrl(Repo(repoVar, repoUrlVar, urlPathname));
      && url[..|GitHubPrefix|] == GitHubPrefix
      && IsOwnerSlashRepo(url[|GitHubPrefix|..])
  {
  }

  /** The default URL is no "owner/name" pair: its scheme's colon stops the
      owner part. */
  lemma DefaultRepoUrlIsUrl()
    ensures !MatchesRepoPattern(DefaultRepoUrl)
  {
    DefaultUrlScheme();
    var u := DefaultRepoUrl;
    forall j | 0 <= j <= 4
      ensures u[1..][j] == u[j + 1]
    {
    }
    OwnerTailStops(u[1..], 4);
  }

  /** Solver aid: the characters of the default URL's scheme, by index. */
  lemma DefaultUrlScheme()
    ensures |DefaultRepoUrl| > 5
    ensures DefaultRepoUrl[1] == 't' && DefaultRepoUrl[2] == 't' && DefaultRepoUrl[3] == 'p'
    ensures DefaultRepoUrl[4] == 's' && DefaultRepoUrl[5] == ':'
  {
  }

  /** The owner part fails at the first character that is neither an owner
      character nor the slash. */
  lemma {:induction false} OwnerTailStops(s: string, i: nat)
    requires i < |s| && s[i] != '/' && !IsOwnerChar(s[i])
    requires forall j :: 0 <= j < i ==> s[j] != '/'
    ensures !MatchOwnerTail(s)
  {
    if i > 0 {
      OwnerTailStops(s[1..], i - 1);
    }
  }

  /** The default URL has no surrounding whitespace. */
  lemma DefaultRepoUrlTrimmed()
    ensures Trim(DefaultRepoUrl) == DefaultRepoUrl
  {
    var u := DefaultRepoUrl;
    assert u[0] == 'h' && u[|u| - 1] == 't';
    TrimVisible(u);
  }

  /** The default URL's pathname names the project. */
  lemma DefaultPathNamesProject()
    ensures var segments := ["", "rimu-7", "next-toast"];
      && Join(segments, '/') == "/rimu-7/next-toast"
      && (forall k :: 0 <= k < |segments| ==> '/' !in segments[k])
      && Filter(NonEmpty, segments) == ["rimu-7", "next-toast"]
  {
    var segments := ["", "rimu-7", "next-toast"];
    assert segments[1..] == ["rimu-7", "next-toast"];
    assert segments[2..] == ["next-toast"];
    assert Filter(NonEmpty, segments[2..]) == ["next-toast"];
  }

  /** The URL branch need not give a pattern-shaped pair: a URL whose
      pathname is "/a.b/c" gives "a.b/c", whose owner part has a dot. */
  lemma UrlPairNeedNotMatch(input: string, urlPathname: string -> Option<string>)
    requires input != "" && !MatchesRepoPattern(Trim(input))
    requires urlPathname(Trim(input)) == Some("/a.b/c")
    ensures ParseRepo(Some(input), urlPathname) == Some("a.b/c")
    ensures !MatchesRepoPattern("a.b/c")
  {
    DottedPathSegments();
    ParseRepoFromPath(input, urlPathname, ["", "a.b", "c"]);
    DottedPairRefused();
  }

  lemma DottedPathSegments()
    ensures var segments := ["", "a.b", "c"];
      && Join(segments, '/') == "/a.b/c"
      && (forall k :: 0 <= k < |segments| ==> '/' !in segments[k])
      && Filter(NonEmpty, segments) == ["a.b", "c"]
      && "a.b" + "/" + "c" == "a.b/c"
  {
    var segments := ["", "a.b", "c"];
    assert segments[1..] == ["a.b", "c"];
    assert segments[2..] == ["c"];
    assert Filter(NonEmpty, segments[2..]) == ["c"];
  }

  /** "a.b/c" fails the pattern at the dot in its owner part. */
  lemma DottedPairRefused()
    ensures !MatchesRepoPattern("a.b/c")
  {
    var t := "a.b/c";
    assert t[1..][0] == '.';
    OwnerTailStops(t[1..], 0);
  }

  /** With neither variable set, the link points at the project itself,
      whether the default URL's pathname is read ("/rimu-7/next-toast") or
      the URL is refused. */
  lemma DefaultRepoLink(urlPathname: string -> Option<string>)
    requires urlPathname(DefaultRepoUrl) == None || urlPathname(DefaultRepoUrl) == Some("/rimu-7/next-toast")
    ensures Repo(None, None, urlPathname) == DefaultRepo
    ensures RepoUrl(Repo(None, None, urlPathname)) == DefaultRepoUrl
  {
    assert RepoFromEnv(None, None) == DefaultRepoUrl;
    DefaultUrlParses(urlPathname);
    DefaultRepoUrlSplits();
  }

  /** The default URL parses to the project's own pair, or to nothing when
      the URL is refused. */
  lemma DefaultUrlParses(urlPathname: string -> Option<string>)
    requires urlPathname(DefaultRepoUrl) == None || urlPathname(DefaultRepoUrl) == Some("/rimu-7/next-toast")
    ensures ParseRepo(Some(DefaultRepoUrl), urlPathname).GetOr(DefaultRepo) == DefaultRepo
  {
    DefaultRepoUrlIsUrl();
    DefaultRepoUrlTrimmed();
    if urlPathname(DefaultRepoUrl).Some? {
      var segments := ["", "rimu-7", "next-toast"];
      DefaultPathNamesProject();
      ParseRepoFromPath(DefaultRepoUrl, urlPathname, segments);
      assert "rimu-7" + "/" + "next-toast" == DefaultRepo;
    }
  }

  lemma DefaultRepoUrlSplits()
    ensures GitHubPrefix + DefaultRepo == DefaultRepoUrl
  {
    var u := DefaultRepoUrl;
    assert u[..19] == GitHubPrefix;
    assert u[19..] == DefaultRepo;
    assert u == u[..19] + u[19..];
  }

  // ---------------------------------------------------------- install command

  datatype InstallType = Pnpm | Npm | Bun

  /** The package manager's name, as its tab shows it. */
  function ManagerName(t: InstallType): string {
    match t
    case Pnpm => "pnpm"
    case Npm => "npm"
    case Bun => "bun"
  }

  /** `getInstallCommand`: each command runs its own manager and installs
      the package. */
  function InstallCommand(t: InstallType): (cmd: string)
    ensures var name := ManagerName(t);
      && |cmd| > |name| + 11
      && cmd[..|name| + 1] == name + " "
      && cmd[|name| + 1..|cmd| - 11] == (if t == Npm then "i" else "add")
      && cmd[|cmd| - 11..] == " next-toast"
  {
    // "pnpm add next-toast", "npm i next-toast", "bun add next-toast"
    var name, verb := ManagerName(t), if t == Npm then "i" else "add";
    CommandParts(name, verb);
    name + " " + verb + " next-toast"
  }

  /** A command made of a manager's name, a verb and the package reads back
      as those three parts. */
  lemma CommandParts(name: string, verb: string)
    ensures var cmd := name + " " + verb + " next-toast";
      && |cmd| > |name| + 11
      && cmd[..|name| + 1] == name + " "
      && cmd[|name| + 1..|cmd| - 11] == verb
      && cmd[|cmd| - 11..] == " next-toast"
  {
    var cmd := name + " " + verb + " next-toast";
    assert cmd == (name + " ") + (verb + " next-toast");
    assert cmd == (name + " ") + verb + " next-toast";
  }

  /** No two managers share a command. */
  lemma InstallCommandsDistinct(t: InstallType, u: InstallType)
    ensures InstallCommand(t) == InstallCommand(u) ==> t == u
  {
    assert |InstallCommand(Pnpm)| == 19;
    assert |InstallCommand(Npm)| == 16;
    assert |InstallCommand(Bun)| == 18;
  }

  // ---------------------------------------------------------------- snippets

  /** The JSX literal of a switch. */
  function BoolLiteral(b: bool): string {
    if b then "true" else "false"
  }

  /** `closeButtonSnippet`: the element wrapped around the `closeButton`
      attribute of the switch. */
  function CloseButtonSnippet(showCloseBtn: bool): (snippet: string)
    ensures snippet == "<NextToast " + CloseButtonAttribute(showCloseBtn) + " />"
  {
    if showCloseBtn then
      assert "<NextToast closeButton={true} />" == "<NextToast " + "closeButton={true}" + " />";
      "<NextToast closeButton={true} />"
    else
      assert "<NextToast closeButton={false} />" == "<NextToast " + "closeButton={false}" + " />";
      "<NextToast closeButton={false} />"
  }

  /** `richColorsSnippet`: the element wrapped around the `richColors`
      attribute of the switch. */
  function RichColorsSnippet(isRichColors: bool): (snippet: string)
    ensures snippet == "<NextToast " + RichColorsAttribute(isRichColors) + " />"
  {
    if isRichColors then
      assert "<NextToast richColors={true} />" == "<NextToast " + "richColors={true}" + " />";
      "<NextToast richColors={true} />"
    else
      assert "<NextToast richColors={false} />" == "<NextToast " + "richColors={false}" + " />";
      "<NextToast richColors={false} />"
  }

  /** `richColorsOrDefaultSnippet`: the attribute reads true exactly when
      the switch is on. */
  function RichColorsAttribute(isRichColors: bool): (attr: string)
    ensures attr == "richColors={true}" <==> isRichColors
    ensures attr == "richColors={false}" <==> !isRichColors
  {
    "richColors={" + BoolLiteral(isRichColors) + "}"
  }

  /** The `closeButton` attribute for a switch position: it reads true
      exactly when the switch is on. */
  function CloseButtonAttribute(showCloseBtn: bool): (attr: string)
    ensures attr == "closeButton={true}" <==> showCloseBtn
    ensures attr == "closeButton={false}" <==> !showCloseBtn
  {
    "closeButton={" + BoolLiteral(showCloseBtn) + "}"
  }

  /** `basicDefaultConfigSnippet`: the element with the `closeButton`
      attribute first and the `richColors` attribute after it, one space
      apart. */
  function BasicDefaultConfigSnippet(showCloseBtn: bool, isRichColors: bool): (snippet: string)
    ensures snippet == "<NextToast " + CloseButtonAttribute(showCloseBtn) + " " + RichColorsAttribute(isRichColors) + " />"
    ensures OccursAt(snippet, CloseButtonAttribute(showCloseBtn), 11)
    ensures OccursAt(snippet, RichColorsAttribute(isRichColors), 12 + |CloseButtonAttribute(showCloseBtn)|)
  {
    BasicSnippetLayout(BoolLiteral(showCloseBtn), RichColorsAttribute(isRichColors));
    "<NextToast closeButton={" + BoolLiteral(showCloseBtn) + "} " + RichColorsAttribute(isRichColors) + " />"
  }

  /** Where the two attributes sit in the basic snippet's template. */
  lemma BasicSnippetLayout(close: string, rich: string)
    ensures var attr := "closeButton={" + close + "}";
      var snippet := "<NextToast closeButton={" + close + "} " + rich + " />";
      && snippet == "<NextToast " + attr + " " + rich + " />"
      && OccursAt(snippet, attr, 11) && OccursAt(snippet, rich, 12 + |attr|)
  {
    var attr := "closeButton={" + close + "}";
    BasicSnippetPieces();
    assert "<NextToast closeButton={" + close + "} " + rich + " />" == "<NextToast " + attr + " " + rich + " />";
    assert "<NextToast closeButton={" + close + "} " + rich + " />" == "<NextToast " + attr + (" " + rich + " />");
    OccursBetween("<NextToast ", attr, " " + rich + " />");
    Regroup("<NextToast ", attr, " ", rich, " />");
    OccursBetween("<NextToast " + attr + " ", rich, " />");
  }

  /** Solver aid: moves the brackets of a five-part concatenation. */
  lemma Regroup(a: string, b: string, c: string, d: string, e: string)
    ensures a + b + (c + d + e) == (a + b + c) + d + e
  {
  }

  /** A string occurs in a concatenation right after what precedes it. */
  lemma OccursBetween(pre: string, mid: string, post: string)
    ensures OccursAt(pre + mid + post, mid, |pre|)
  {
    assert (pre + mid + post)[|pre|..|pre| + |mid|] == mid;
  }

  /** Solver aid: splits the template's literals at the attribute boundaries. */
  lemma BasicSnippetPieces()
    ensures "<NextToast closeButton={" == "<NextToast " + "closeButton={"
    ensures "} " == "}" + " "
  {
  }

  /** The close-button snippet and the basic snippet both carry the
      `closeButton` attribute of the switch. */
  lemma CloseButtonAttributeShown(showCloseBtn: bool, isRichColors: bool)
    ensures var close := CloseButtonAttribute(showCloseBtn);
      Includes(CloseButtonSnippet(showCloseBtn), close)
      && Includes(BasicDefaultConfigSnippet(showCloseBtn, isRichColors), close)
  {
    OccursBetween("<NextToast ", CloseButtonAttribute(showCloseBtn), " />");
  }

  /** The rich-colors snippet and the basic snippet both carry the
      `richColors` attribute of the switch. */
  lemma RichColorsAttributeShown(showCloseBtn: bool, isRichColors: bool)
    ensures var rich := RichColorsAttribute(isRichColors);
      Includes(RichColorsSnippet(isRichColors), rich)
      && Includes(BasicDefaultConfigSnippet(showCloseBtn, isRichColors), rich)
  {
    OccursBetween("<NextToast ", RichColorsAttribute(isRichColors), " />");
  }

  /** The basic snippet tells every pair of switch positions apart. */
  lemma BasicSnippetInjective(c1: bool, r1: bool, c2: bool, r2: bool)
    requires BasicDefaultConfigSnippet(c1, r1) == BasicDefaultConfigSnippet(c2, r2)
    ensures c1 == c2 && r1 == r2
  {
    var basic, other := BasicDefaultConfigSnippet(c1, r1), BasicDefaultConfigSnippet(c2, r2);
    assert basic[24] == BoolLiteral(c1)[0];
    assert other[24] == BoolLiteral(c2)[0];
    var at := |BoolLiteral(c1)| + 38;
    assert basic[at] == BoolLiteral(r1)[0];
    if c1 == c2 {
      assert other[at] == BoolLiteral(r2)[0];
    }
  }

  // ------------------------------------------------------- position example

  /** The snippet a position button stores: `<NextToast position="..." />`. */
  function PositionSnippet(pos: string): (snippet: string)
    ensures |snippet| == |pos| + 25
    ensures snippet[..21] == "<NextToast position=\"" && OccursAt(snippet, pos, 21)
    ensures snippet[|snippet| - 4..] == "\" />"
  {
    "<NextToast position=\"" + pos + "\" />"
  }

  const NextToastTag := "<NextToast"
  const PositionFallback := "<NextToast position=\"top-center\" />"

  /** The position card's code: the last snippet when it is a `<NextToast`
      element, otherwise the top-center example. */
  function PositionCode(activeSnippet: string): (code: string)
    ensures Includes(code, NextToastTag)
    ensures Includes(activeSnippet, NextToastTag) ==> code == activeSnippet
    ensures !Includes(activeSnippet, NextToastTag) ==> code == PositionFallback
  {
    assert OccursAt(PositionFallback, NextToastTag, 0);
    if Includes(activeSnippet, NextToastTag) then activeSnippet else PositionFallback
  }

  /** After a position button is pressed, its own snippet is shown. */
  lemma PositionSnippetShown(pos: string)
    ensures PositionCode(PositionSnippet(pos)) == PositionSnippet(pos)
  {
    assert OccursAt(PositionSnippet(pos), NextToastTag, 0);
  }
}
